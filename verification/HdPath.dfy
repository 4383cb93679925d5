/** Derivation paths of hierarchical deterministic wallets: the text form and the numbers. */
module HdPaths {
  import opened Prelude

  const HARDENED: nat := 0x8000_0000
  const MAX_UINT32: nat := 0xFFFF_FFFF

  type Path = seq<nat>

  const DEFAULT_ROOT: Path := [HARDENED + 44, HARDENED + 60, HARDENED + 0, 0]

  datatype Error = EmptyPath | AmbiguousPath | InvalidComponent | OutOfRange

  datatype Result<T> = Ok(value: T) | Err(error: Error)

  ghost predicate IsPath(p: Path) {
    forall i :: 0 <= i < |p| ==> p[i] <= MAX_UINT32
  }

  /** Unicode white space. */
  predicate IsSpace(c: char) {
    var u := c as int;
    9 <= u <= 13 || u == 0x20 || u == 0x85 || u == 0xA0 || u == 0x1680 || 0x2000 <= u <= 0x200A
    || u == 0x2028 || u == 0x2029 || u == 0x202F || u == 0x205F || u == 0x3000
  }

  /** The white space characters one by one. */
  lemma SpaceExactly(c: char)
    ensures IsSpace(c) <==>
              c as int in {0x9, 0xA, 0xB, 0xC, 0xD, 0x20, 0x85, 0xA0, 0x1680,
                           0x2000, 0x2001, 0x2002, 0x2003, 0x2004, 0x2005, 0x2006, 0x2007, 0x2008, 0x2009, 0x200A,
                           0x2028, 0x2029, 0x202F, 0x205F, 0x3000}
  {
  }

  function TrimSpace(s: string): string {
    if s != [] && IsSpace(s[0]) then TrimSpace(s[1..])
    else if s != [] && IsSpace(s[|s| - 1]) then TrimSpace(s[..|s| - 1])
    else s
  }

  /** The parts between separators; there is always at least one. */
  function Split(s: string, sep: char): (parts: seq<string>)
    ensures |parts| >= 1
  {
    if s == [] then [[]]
    else
      var rest := Split(s[1..], sep);
      if s[0] == sep then [[]] + rest else [[s[0]] + rest[0]] + rest[1..]
  }

  /** What the reader of digits has just seen; separators need a digit or a prefix before them and
      a digit after them. */
  datatype Seen = Nothing | Prefix | Digit | Separator

  function DigitValue(c: char): nat {
    if '0' <= c <= '9' then c as nat - '0' as nat
    else if 'a' <= c <= 'z' then c as nat - 'a' as nat + 10
    else if 'A' <= c <= 'Z' then c as nat - 'A' as nat + 10
    else 36
  }

  function ReadDigits(s: string, base: nat, value: nat, seen: Seen): Option<nat> {
    if s == [] then if seen == Digit then Some(value) else None
    else if s[0] == '_' then
      if seen == Prefix || seen == Digit then ReadDigits(s[1..], base, value, Separator) else None
    else if DigitValue(s[0]) < base then ReadDigits(s[1..], base, value * base + DigitValue(s[0]), Digit)
    else None
  }

  /** A natural number in the notation of integer literals, where a prefix gives the base. */
  function ReadNat(s: string): Option<nat> {
    if |s| >= 2 && s[0] == '0' then
      if s[1] in "bB" then ReadDigits(s[2..], 2, 0, Prefix)
      else if s[1] in "oO" then ReadDigits(s[2..], 8, 0, Prefix)
      else if s[1] in "xX" then ReadDigits(s[2..], 16, 0, Prefix)
      else ReadDigits(s[1..], 8, 0, Prefix)
    else ReadDigits(s, 10, 0, Nothing)
  }

  function ReadInt(s: string): Option<int> {
    if s != [] && (s[0] == '+' || s[0] == '-') then
      match ReadNat(s[1..])
      case None => None
      case Some(n) => var v: int := n; Some(if s[0] == '-' then -v else v)
    else
      match ReadNat(s)
      case None => None
      case Some(n) => var v: int := n; Some(v)
  }

  /** One component: a number, hardened when an apostrophe follows. */
  function ParseComponent(text: string): (r: Result<nat>)
    ensures r.Ok? ==> r.value <= MAX_UINT32
  {
    var trimmed := TrimSpace(text);
    var hardened := trimmed != [] && trimmed[|trimmed| - 1] == '\'';
    var offset := if hardened then HARDENED else 0;
    var digits := if hardened then TrimSpace(trimmed[..|trimmed| - 1]) else trimmed;
    match ReadInt(digits)
    case None => Err(InvalidComponent)
    case Some(n) => if n < 0 || n > MAX_UINT32 - offset then Err(OutOfRange) else Ok(offset + n)
  }

  function ParseComponents(parts: seq<string>): (r: Result<Path>)
    ensures r.Ok? ==> |r.value| == |parts| && IsPath(r.value)
  {
    if parts == [] then Ok([])
    else
      match ParseComponent(parts[0])
      case Err(e) => Err(e)
      case Ok(v) =>
        match ParseComponents(parts[1..])
        case Err(e) => Err(e)
        case Ok(rest) => Ok([v] + rest)
  }

  /** Absolute paths start with `m`; relative ones continue the default root. */
  function Parse(text: string): (r: Result<Path>)
    ensures r.Ok? ==> IsPath(r.value) && r.value != []
  {
    var parts := Split(text, '/');
    var first := TrimSpace(parts[0]);
    if first == [] then Err(AmbiguousPath)
    else if first == "m" then if |parts| == 1 then Err(EmptyPath) else ParseComponents(parts[1..])
    else
      match ParseComponents(parts)
      case Err(e) => Err(e)
      case Ok(p) => Ok(DEFAULT_ROOT + p)
  }

  function DigitChar(d: nat): char
    requires d < 10
  {
    '0' + d as char
  }

  function Decimal(n: nat): (s: string)
    ensures s != []
  {
    if n < 10 then [DigitChar(n)] else Decimal(n / 10) + [DigitChar(n % 10)]
  }

  function ComponentString(c: nat): string {
    if c >= HARDENED then Decimal(c - HARDENED) + "'" else Decimal(c)
  }

  /** The canonical text of a path. */
  function PathString(p: Path): string {
    if p == [] then "m" else PathString(p[..|p| - 1]) + "/" + ComponentString(p[|p| - 1])
  }

  predicate IsDigit(c: char) {
    '0' <= c <= '9'
  }

  lemma {:induction false} DecimalDigits(n: nat)
    ensures forall i :: 0 <= i < |Decimal(n)| ==> IsDigit(Decimal(n)[i])
    ensures |Decimal(n)| >= 2 ==> Decimal(n)[0] != '0'
    decreases n
  {
    if n >= 10 {
      DecimalDigits(n / 10);
      if |Decimal(n / 10)| == 1 {
        assert n / 10 < 10;
      }
    }
  }

  lemma {:induction false} ReadOneMore(s: string, c: char, base: nat, value: nat, seen: Seen)
    requires c != '_' && DigitValue(c) < base && ReadDigits(s, base, value, seen).Some?
    ensures ReadDigits(s + [c], base, value, seen) ==
              Some(ReadDigits(s, base, value, seen).value * base + DigitValue(c))
    decreases |s|
  {
    if s == [] {
      assert (s + [c])[1..] == [];
    } else {
      assert (s + [c])[1..] == s[1..] + [c];
      if s[0] == '_' {
        ReadOneMore(s[1..], c, base, value, Separator);
      } else {
        ReadOneMore(s[1..], c, base, value * base + DigitValue(s[0]), Digit);
      }
    }
  }

  /** Decimal text is read back as the number. */
  lemma {:induction false} ReadDecimal(n: nat)
    ensures ReadDigits(Decimal(n), 10, 0, Nothing) == Some(n)
    decreases n
  {
    if n < 10 {
      assert Decimal(n)[1..] == [];
    } else {
      ReadDecimal(n / 10);
      ReadOneMore(Decimal(n / 10), DigitChar(n % 10), 10, 0, Nothing);
    }
  }

  /** Every component survives printing and parsing, across the whole 32-bit range. */
  lemma ComponentRoundTrip(c: nat)
    requires c <= MAX_UINT32
    ensures ParseComponent(ComponentString(c)) == Ok(c)
  {
    if c >= HARDENED {
      DecimalComponent(c - HARDENED, true);
    } else {
      DecimalComponent(c, false);
      assert Decimal(c) + "" == Decimal(c);
    }
  }

  lemma ComponentPlain(c: nat)
    ensures ComponentString(c) != [] && '/' !in ComponentString(c)
  {
    DecimalDigits(if c >= HARDENED then c - HARDENED else c);
  }

  lemma {:induction false} SplitPlain(s: string, sep: char)
    requires sep !in s
    ensures Split(s, sep) == [s]
  {
    if s != [] {
      SplitPlain(s[1..], sep);
      assert [s[0]] + s[1..] == s;
    }
  }

  lemma {:induction false} SplitLast(a: string, b: string, sep: char)
    requires sep !in b
    ensures Split(a + [sep] + b, sep) == Split(a, sep) + [b]
    decreases |a|
  {
    var s := a + [sep] + b;
    if a == [] {
      SplitPlain(b, sep);
      assert s[1..] == b;
    } else {
      SplitLast(a[1..], b, sep);
      assert s[1..] == a[1..] + [sep] + b;
    }
  }

  /** The text forms of the components. */
  ghost function Texts(p: Path): seq<string> {
    seq(|p|, i requires 0 <= i < |p| => ComponentString(p[i]))
  }

  lemma {:induction false} SplitPath(p: Path)
    ensures Split(PathString(p), '/') == ["m"] + Texts(p)
    decreases |p|
  {
    if p == [] {
      SplitPlain("m", '/');
    } else {
      var most, last := p[..|p| - 1], p[|p| - 1];
      SplitPath(most);
      ComponentPlain(last);
      SplitLast(PathString(most), ComponentString(last), '/');
      assert Texts(p) == Texts(most) + [ComponentString(last)];
    }
  }

  lemma {:induction false} ParseTexts(p: Path)
    requires IsPath(p)
    ensures ParseComponents(Texts(p)) == Ok(p)
    decreases |p|
  {
    hide ParseComponent, ComponentString;
    if p != [] {
      ComponentRoundTrip(p[0]);
      ParseTexts(p[1..]);
      assert Texts(p)[0] == ComponentString(p[0]) && Texts(p)[1..] == Texts(p[1..]);
      assert [p[0]] + p[1..] == p;
    }
  }

  /** Printing and parsing gives the path back exactly when the path is not empty. */
  lemma RoundTrip(p: Path)
    requires IsPath(p)
    ensures p != [] ==> Parse(PathString(p)) == Ok(p)
    ensures p == [] ==> Parse(PathString(p)) == Err(EmptyPath)
  {
    SplitPath(p);
    ParseTexts(p);
    assert TrimSpace("m") == "m";
    assert (["m"] + Texts(p))[1..] == Texts(p);
  }

  /** The default root in print. */
  lemma RootPrinted()
    ensures PathString(DEFAULT_ROOT) == "m/44'/60'/0'/0"
  {
    assert Decimal(0) == "0" && Decimal(44) == "44" && Decimal(60) == "60";
    assert PathString(DEFAULT_ROOT[..0]) == "m";
    assert DEFAULT_ROOT[..1][..0] == DEFAULT_ROOT[..0] && PathString(DEFAULT_ROOT[..1]) == "m/44'";
    assert DEFAULT_ROOT[..2][..1] == DEFAULT_ROOT[..1] && PathString(DEFAULT_ROOT[..2]) == "m/44'/60'";
    assert DEFAULT_ROOT[..3][..2] == DEFAULT_ROOT[..2] && PathString(DEFAULT_ROOT[..3]) == "m/44'/60'/0'";
  }

  /** Distinct paths print differently. */
  lemma PathStringInjective(p: Path, q: Path)
    requires IsPath(p) && IsPath(q) && PathString(p) == PathString(q)
    ensures p == q
  {
    RoundTrip(p);
    RoundTrip(q);
  }

  /** Whatever text is accepted, its canonical form means the same. */
  lemma Canonical(text: string)
    requires Parse(text).Ok?
    ensures Parse(PathString(Parse(text).value)) == Parse(text)
  {
    RoundTrip(Parse(text).value);
  }

  lemma {:induction false} PathStringStart(p: Path)
    requires p != []
    ensures PathString(p) == "m/" + PathString(p)[2..]
    decreases |p|
  {
    if |p| > 1 {
      PathStringStart(p[..|p| - 1]);
    } else {
      assert p[..|p| - 1] == [];
    }
  }

  lemma BelowRoot(p: Path)
    ensures DEFAULT_ROOT + p == [2147483648 + 44, 2147483648 + 60, 2147483648, 0] + p
  {
  }

  /** A text without the leading `m/` means the path below the default root. */
  lemma RelativePath(p: Path)
    requires IsPath(p) && p != []
    ensures |PathString(p)| >= 2 &&
            Parse(PathString(p)[2..]) == Ok([2147483648 + 44, 2147483648 + 60, 2147483648, 0] + p)
  {
    hide ParseComponents, ComponentString, TrimSpace, PathString;
    PathStringStart(p);
    var s, rest := PathString(p), PathString(p)[2..];
    SplitPath(p);
    assert s[1..] == "/" + rest && s[1..][1..] == rest;
    assert Split(s, '/') == ["m"] + Split(rest, '/');
    assert Split(rest, '/') == Split(s, '/')[1..] == Texts(p);
    ParseTexts(p);
    FirstText(p[0]);
    BelowRoot(p);
  }

  lemma FirstText(c: nat)
    ensures TrimSpace(ComponentString(c)) != [] && TrimSpace(ComponentString(c)) != "m"
  {
    DecimalDigits(if c >= HARDENED then c - HARDENED else c);
    assert IsDigit(ComponentString(c)[0]);
  }

  /** A decimal component is accepted exactly up to the range that its kind leaves in 32 bits. */
  lemma DecimalComponent(n: nat, hardened: bool)
    ensures var offset := if hardened then 2147483648 else 0;
            ParseComponent(Decimal(n) + if hardened then "'" else "") ==
            if offset + n <= 4294967295 then Ok(offset + n) else Err(OutOfRange)
  {
    hide ReadNat, Decimal;
    var d := Decimal(n);
    var text := d + if hardened then "'" else "";
    DecimalDigits(n);
    PlainDecimal(n);
    assert IsDigit(d[0]) && IsDigit(d[|d| - 1]);
    assert ReadInt(d) == Some(n) && TrimSpace(d) == d;
    if hardened {
      assert text[0] == d[0] && text[|text| - 1] == '\'' && text[..|text| - 1] == d;
      assert TrimSpace(text) == text;
    } else {
      assert text == d;
    }
  }

  lemma PlainDecimal(n: nat)
    ensures ReadNat(Decimal(n)) == Some(n)
  {
    DecimalDigits(n);
    ReadDecimal(n);
  }

  function DigitOf(d: nat): char
    requires d < 16
  {
    if d < 10 then '0' + d as char else 'a' + (d - 10) as char
  }

  /** A number in the digits of a base. */
  function Numeral(n: nat, base: nat): (s: string)
    requires 2 <= base <= 16
    ensures s != []
    decreases n
  {
    if n < base then [DigitOf(n)] else Quotient(n, base); Numeral(n / base, base) + [DigitOf(n % base)]
  }

  lemma Quotient(n: nat, base: nat)
    requires 2 <= base <= n
    ensures n / base < n && n % base < base && n / base * base + n % base == n
  {
  }

  lemma {:induction false} ReadNumeral(n: nat, base: nat)
    requires 2 <= base <= 16
    ensures ReadDigits(Numeral(n, base), base, 0, Prefix) == Some(n)
    ensures forall i :: 0 <= i < |Numeral(n, base)| ==>
              !IsSpace(Numeral(n, base)[i]) && Numeral(n, base)[i] != '\'' && DigitValue(Numeral(n, base)[i]) < base
    decreases n
  {
    if n < base {
      assert Numeral(n, base)[1..] == [];
    } else {
      Quotient(n, base);
      ReadNumeral(n / base, base);
      ReadOneMore(Numeral(n / base, base), DigitOf(n % base), base, 0, Prefix);
    }
  }

  /** The prefixes of number literals and the bases they stand for. */
  ghost predicate Announces(prefix: string, base: nat) {
    || (base == 2 && (prefix == "0b" || prefix == "0B"))
    || (base == 8 && (prefix == "0o" || prefix == "0O" || prefix == "0"))
    || (base == 16 && (prefix == "0x" || prefix == "0X"))
  }

  /** Components can be given in binary, octal and hexadecimal. */
  lemma PrefixedComponent(prefix: string, n: nat, base: nat)
    requires Announces(prefix, base)
    ensures ParseComponent(prefix + Numeral(n, base)) == if n <= 4294967295 then Ok(n) else Err(OutOfRange)
  {
    hide ReadNat, ReadDigits, Numeral;
    var h := Numeral(n, base);
    var text := prefix + h;
    ReadNumeral(n, base);
    PrefixedNat(prefix, n, base);
    assert text[0] == '0' && text[|text| - 1] == h[|h| - 1];
    assert ReadInt(text) == Some(n) && TrimSpace(text) == text;
  }

  lemma PrefixedNat(prefix: string, n: nat, base: nat)
    requires Announces(prefix, base)
    ensures ReadNat(prefix + Numeral(n, base)) == Some(n)
  {
    hide ReadDigits, Numeral;
    var h := Numeral(n, base);
    var text := prefix + h;
    ReadNumeral(n, base);
    assert DigitValue(h[0]) < base && |h| >= 1;
    if prefix == "0" {
      assert text[1..] == h && text[1] == h[0];
    } else {
      assert text[2..] == h && text[1] == prefix[1];
    }
  }

  /** Digits count from 0 to 15 in either case, and no other character is a digit of base 16. */
  lemma DigitsExactly(c: char, d: nat)
    requires d < 16
    ensures DigitValue("0123456789abcdef"[d]) == d && DigitValue("0123456789ABCDEF"[d]) == d
    ensures DigitValue(c) < 16 ==>
              c == "0123456789abcdef"[DigitValue(c)] || c == "0123456789ABCDEF"[DigitValue(c)]
  {
  }

  /** A separator may follow the prefix, but not begin a number, double or end it. */
  lemma SeparatorPlaces(s: string, base: nat, value: nat, seen: Seen)
    ensures s != [] && s[0] != '_' ==> ReadDigits("_" + s, base, value, Prefix) == ReadDigits(s, base, value, Prefix)
    ensures ReadDigits("_" + s, base, value, Nothing).None?
    ensures ReadDigits("__" + s, base, value, seen).None?
    ensures ReadDigits("_", base, value, seen).None?
  {
    assert ("_" + s)[1..] == s && ("__" + s)[1..] == "_" + s;
    assert "_"[1..] == [];
  }

  /** A separator between two digits changes nothing. */
  lemma {:induction false} SeparatorIgnored(a: string, b: string, base: nat, value: nat, seen: Seen)
    requires ReadDigits(a, base, value, seen).Some? && b != [] && b[0] != '_'
    ensures ReadDigits(a + "_" + b, base, value, seen) == ReadDigits(a + b, base, value, seen)
    decreases |a|
  {
    if a == [] {
      assert (a + "_" + b)[1..] == b && a + b == b;
    } else {
      assert (a + "_" + b)[1..] == a[1..] + "_" + b && (a + b)[1..] == a[1..] + b;
      SeparatorIgnored(a[1..], b, base, if a[0] == '_' then value else value * base + DigitValue(a[0]),
                       if a[0] == '_' then Separator else Digit);
    }
  }

  /** A character that is neither a digit of the base nor a separator makes the number invalid. */
  lemma {:induction false} BadCharacter(s: string, base: nat, value: nat, seen: Seen, i: nat)
    requires i < |s| && s[i] != '_' && DigitValue(s[i]) >= base
    ensures ReadDigits(s, base, value, seen).None?
    decreases |s|
  {
    if i > 0 {
      BadCharacter(s[1..], base, value * base + DigitValue(s[0]), Digit, i - 1);
      BadCharacter(s[1..], base, value, Separator, i - 1);
    }
  }

  /** Negative components are out of range. */
  lemma NegativeComponent(n: nat)
    requires n > 0
    ensures ParseComponent("-" + Decimal(n)) == Err(OutOfRange)
  {
    hide ReadNat, Decimal;
    var d := Decimal(n);
    var text := "-" + d;
    DecimalDigits(n);
    PlainDecimal(n);
    assert text[0] == '-' && text[1..] == d && text[|text| - 1] == d[|d| - 1] && IsDigit(d[|d| - 1]);
    assert TrimSpace(text) == text;
  }

  ghost predicate AllSpace(s: string) {
    forall i :: 0 <= i < |s| ==> IsSpace(s[i])
  }

  lemma {:induction false} TrimFront(a: string, s: string)
    requires AllSpace(a)
    ensures TrimSpace(a + s) == TrimSpace(s)
    decreases |a|
  {
    if a == [] {
      assert a + s == s;
    } else {
      assert (a + s)[1..] == a[1..] + s;
      TrimFront(a[1..], s);
    }
  }

  lemma {:induction false} TrimBack(s: string, b: string)
    requires AllSpace(b)
    ensures TrimSpace(s + b) == TrimSpace(s)
    decreases |s| + |b|
  {
    if b == [] {
      assert s + b == s;
    } else if s == [] {
      TrimFront(b, []);
      assert s + b == b + [];
    } else if IsSpace(s[0]) {
      assert (s + b)[1..] == s[1..] + b;
      TrimBack(s[1..], b);
    } else {
      assert (s + b)[..|s + b| - 1] == s + b[..|b| - 1];
      TrimBack(s, b[..|b| - 1]);
    }
  }

  /** White space around a component is ignored. */
  lemma SpaceIgnored(a: string, s: string, b: string)
    requires AllSpace(a) && AllSpace(b)
    ensures ParseComponent(a + s + b) == ParseComponent(s)
  {
    TrimBack(a + s, b);
    TrimFront(a, s);
  }

  lemma {:induction false} SplitFirst(a: string, s: string, sep: char)
    requires sep !in a
    ensures Split(a + [sep] + s, sep)[0] == a
  {
    var text := a + [sep] + s;
    if a == [] {
      assert text[0] == sep;
    } else {
      assert text[0] == a[0] && text[1..] == a[1..] + [sep] + s;
      SplitFirst(a[1..], s, sep);
      assert a == [a[0]] + a[1..];
    }
  }

  /** A path that is blank, or blank before its first separator, is ambiguous. */
  lemma BlankStart(a: string, s: string)
    requires AllSpace(a)
    ensures Parse(a) == Err(AmbiguousPath) && Parse(a + "/" + s) == Err(AmbiguousPath)
  {
    assert forall i :: 0 <= i < |a| ==> a[i] != '/';
    assert '/' !in a;
    SplitPlain(a, '/');
    SplitFirst(a, s, '/');
    TrimFront(a, []);
    assert a + [] == a;
  }

  /** The components are read in order, and the first bad one decides the error. */
  lemma {:induction false} ComponentsExactly(parts: seq<string>)
    ensures match ParseComponents(parts)
            case Ok(p) => |p| == |parts| && forall i :: 0 <= i < |parts| ==> ParseComponent(parts[i]) == Ok(p[i])
            case Err(e) => exists i :: && 0 <= i < |parts| && ParseComponent(parts[i]) == Err(e)
                                       && forall j :: 0 <= j < i ==> ParseComponent(parts[j]).Ok?
    decreases |parts|
  {
    hide ParseComponent;
    if parts != [] {
      ComponentsExactly(parts[1..]);
      if ParseComponent(parts[0]).Ok? && ParseComponents(parts[1..]).Err? {
        var e := ParseComponents(parts[1..]).error;
        var i :| && 0 <= i < |parts[1..]| && ParseComponent(parts[1..][i]) == Err(e)
                 && forall j :: 0 <= j < i ==> ParseComponent(parts[1..][j]).Ok?;
        assert parts[i + 1] == parts[1..][i];
        assert forall j :: 0 < j <= i ==> parts[j] == parts[1..][j - 1];
      }
    }
  }
}
