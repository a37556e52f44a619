/** Command-line options (src/config.cpp): the per-type value parsers and default
    formatters, the word-wrapped help line of each option, and the argument loop of
    Config::read over an option table. The option table itself is a parameter: each entry
    has a name, a value placeholder, a description, a value type, a default value and a
    validation predicate. */
module Config {
  import opened Wrappers
  import opened Decimal

  const BrowserviceVersion: string := "0.9.1.2"

  // ---------------------------------------------------------------- values

  /** tolower in the C locale. */
  function ToLower(c: char): char
  {
    if 'A' <= c <= 'Z' then (c as int + 32) as char else c
  }

  function Lower(s: string): string
  {
    seq(|s|, i requires 0 <= i < |s| => ToLower(s[i]))
  }

  const TrueWords: set<string> := {"1", "yes", "true", "enable", "enabled"}
  const FalseWords: set<string> := {"0", "no", "false", "disable", "disabled"}

  /** OptParser<bool>::parse. */
  function ParseBoolValue(s: string): Option<bool>
  {
    var w := Lower(s);
    if w in TrueWords then Some(true) else if w in FalseWords then Some(false) else None
  }

  /** DefaultValFormatter<bool>::format. */
  function FormatBool(b: bool): string
  {
    if b then "yes" else "no"
  }

  /** OptParser<bool>::parse as written: the copy of the argument is lowercased in place,
      then compared with the two word lists. */
  method ParseBool(str: string) returns (r: Option<bool>)
    ensures r == Some(true) <==> Lower(str) in TrueWords
    ensures r == Some(false) <==> Lower(str) in FalseWords
    ensures r == None <==> Lower(str) !in TrueWords && Lower(str) !in FalseWords
    ensures r == ParseBoolValue(str)
  {
    var s := str;
    var i := 0;
    while i < |s|
      invariant 0 <= i <= |s| == |str|
      invariant forall k :: 0 <= k < i ==> s[k] == ToLower(str[k])
      invariant forall k :: i <= k < |s| ==> s[k] == str[k]
    {
      s := s[i := ToLower(s[i])];
      i := i + 1;
    }
    assert s == Lower(str);
    if s == "1" || s == "yes" || s == "true" || s == "enable" || s == "enabled" {
      r := Some(true);
    } else if s == "0" || s == "no" || s == "false" || s == "disable" || s == "disabled" {
      r := Some(false);
    } else {
      r := None;
    }
  }

  lemma LowerIdempotent(s: string)
    ensures Lower(Lower(s)) == Lower(s)
  {
  }

  /** The bool parser ignores case, and no word means both true and false. */
  lemma ParseBoolIgnoresCase(s: string, t: string)
    requires Lower(s) == Lower(t)
    ensures ParseBoolValue(s) == ParseBoolValue(t)
    ensures ParseBoolValue(Lower(s)) == ParseBoolValue(s)
    ensures TrueWords * FalseWords == {}
  {
    LowerIdempotent(s);
  }

  /** parseString<int> is not part of this model: an integer is read here as an optional
      minus sign followed by decimal digits, without a range limit. */
  function ParseInt(s: string): Option<int>
  {
    if |s| > 0 && s[0] == '-' && IsDigits(s[1..]) then Some(-(DigitsValue(s[1..]) as int))
    else if IsDigits(s) then Some(DigitsValue(s) as int)
    else None
  }

  datatype OptKind = BoolOpt | StringOpt | IntOpt

  datatype Value = BoolVal(b: bool) | StringVal(s: string) | IntVal(i: int)

  function KindOf(v: Value): OptKind
  {
    match v
    case BoolVal(_) => BoolOpt
    case StringVal(_) => StringOpt
    case IntVal(_) => IntOpt
  }

  /** OptParser<T>::parse for the option's type; the string parser accepts anything. */
  function ParseValue(kind: OptKind, s: string): Option<Value>
  {
    match kind
    case BoolOpt => (match ParseBoolValue(s) case Some(b) => Some(BoolVal(b)) case None => None)
    case StringOpt => Some(StringVal(s))
    case IntOpt => (match ParseInt(s) case Some(i) => Some(IntVal(i)) case None => None)
  }

  /** DefaultValFormatter<T>::format: yes/no for booleans, toString otherwise. */
  function FormatValue(v: Value): string
  {
    match v
    case BoolVal(b) => FormatBool(b)
    case StringVal(s) => s
    case IntVal(i) => IntToString(i)
  }

  /** A formatted default reads back as itself; the string parser is the identity. */
  lemma FormatParseRoundTrip(v: Value)
    ensures ParseValue(KindOf(v), FormatValue(v)) == Some(v)
    ensures forall s :: ParseValue(StringOpt, s) == Some(StringVal(s))
  {
    match v
    case BoolVal(b) =>
      assert Lower("yes") == "yes";
      assert Lower("no") == "no";
    case StringVal(_) =>
    case IntVal(i) =>
      if i < 0 {
        DigitsRoundTrip(-i);
        assert IntToString(i)[1..] == NatToDigits(-i);
      } else {
        DigitsRoundTrip(i);
      }
  }

  /** An entry of the option table (config_defs.hpp is not part of this model). */
  datatype OptInfo = OptInfo(name: string, valSpec: string, desc: string, kind: OptKind,
                             defaultVal: Value, validate: Value -> bool)

  // ---------------------------------------------------------------- helpLine

  const DescStart: nat := 33
  const DescStartIndented: nat := 35
  const MaxWidth: nat := 90

  /** isspace in the C locale. */
  predicate IsSpace(c: char)
  {
    c == ' ' || c == '\t' || c == '\n' || c == '\U{000B}' || c == '\U{000C}' || c == '\r'
  }

  function Spaces(n: nat): string
  {
    seq(n, _ => ' ')
  }

  /** The start of a help line: "  --name=VALSPEC ". */
  function Head(info: OptInfo): string
  {
    "  --" + info.name + "=" + info.valSpec + " "
  }

  /** Padded with spaces up to column 33. */
  function Padded(h: string): string
  {
    if |h| < DescStart then h + Spaces(DescStart - |h|) else h
  }

  /** The end of the atom whose second character is at b: the next whitespace, or the
      end of the description. */
  function AtomEnd(desc: string, b: nat): (e: nat)
    requires b <= |desc|
    ensures b <= e <= |desc|
    ensures forall k :: b <= k < e ==> !IsSpace(desc[k])
    ensures e < |desc| ==> IsSpace(desc[e])
    decreases |desc| - b
  {
    if b == |desc| || IsSpace(desc[b]) then b else AtomEnd(desc, b + 1)
  }

  /** The atoms of a description from position a: each is one character (possibly
      whitespace) followed by the non-whitespace characters after it. */
  function Atoms(desc: string, a: nat): seq<string>
    requires a <= |desc|
    decreases |desc| - a
  {
    if a == |desc| then [] else [desc[a..AtomEnd(desc, a + 1)]] + Atoms(desc, AtomEnd(desc, a + 1))
  }

  function Concat(atoms: seq<string>): string
  {
    if atoms == [] then [] else atoms[0] + Concat(atoms[1..])
  }

  /** The leading whitespace removed: a suffix whose dropped characters are all whitespace
      and which starts with none. */
  function TrimLeft(atom: string): (t: string)
    ensures |t| <= |atom| && t == atom[|atom| - |t|..]
    ensures forall k :: 0 <= k < |atom| - |t| ==> IsSpace(atom[k])
    ensures |t| > 0 ==> !IsSpace(t[0])
    decreases |atom|
  {
    if |atom| > 0 && IsSpace(atom[0]) then TrimLeft(atom[1..]) else atom
  }

  /** writeAtom: the text appended for an atom at column linePos, and the new column. */
  function WriteAtom(linePos: int, atom: string): (string, int)
  {
    if linePos + |atom| > MaxWidth && linePos > DescStartIndented then
      var t := TrimLeft(atom);
      ("\n" + Spaces(DescStartIndented) + t, DescStartIndented + |t|)
    else
      (atom, linePos + |atom|)
  }

  function WriteAtoms(linePos: int, atoms: seq<string>): (string, int)
    decreases |atoms|
  {
    if atoms == [] then ("", linePos)
    else
      var first := WriteAtom(linePos, atoms[0]);
      var rest := WriteAtoms(first.1, atoms[1..]);
      (first.0 + rest.0, rest.1)
  }

  function DefaultValStr(info: OptInfo): string
  {
    "default: " + FormatValue(info.defaultVal)
  }

  /** The closing atom of every help line. */
  function DefaultAtom(info: OptInfo): string
  {
    " [" + DefaultValStr(info) + "]"
  }

  /** helpLine: the padded head, then the atoms of the description and the default,
      wrapped. */
  function HelpLineText(info: OptInfo): string
  {
    var h := Padded(Head(info));
    h + WriteAtoms(|h|, Atoms(info.desc, 0) + [DefaultAtom(info)]).0
  }

  /** The atoms of a description put back together give the description. */
  lemma {:induction false} AtomsConcat(desc: string, a: nat)
    requires a <= |desc|
    ensures Concat(Atoms(desc, a)) == desc[a..]
    decreases |desc| - a
  {
    if a < |desc| {
      var e := AtomEnd(desc, a + 1);
      AtomsConcat(desc, e);
      ConcatCons(desc[a..e], Atoms(desc, e));
      assert desc[a..] == desc[a..e] + desc[e..];
    }
  }

  lemma ConcatCons(x: string, rest: seq<string>)
    ensures Concat([x] + rest) == x + Concat(rest)
  {
    assert ([x] + rest)[1..] == rest;
  }

  /** Every atom is non-empty and holds whitespace at most in its first character. */
  lemma {:induction false} AtomsShape(desc: string, a: nat)
    requires a <= |desc|
    ensures forall i :: 0 <= i < |Atoms(desc, a)| ==> |Atoms(desc, a)[i]| > 0
    ensures forall i, k :: 0 <= i < |Atoms(desc, a)| && 0 < k < |Atoms(desc, a)[i]| ==>
              !IsSpace(Atoms(desc, a)[i][k])
    decreases |desc| - a
  {
    if a < |desc| {
      AtomsShape(desc, AtomEnd(desc, a + 1));
    }
  }

  /** The description starts at column 33 or later, after the head and spaces only. */
  lemma HelpLineHead(info: OptInfo)
    ensures var h := Padded(Head(info));
            |h| >= DescStart && h[..|Head(info)|] == Head(info)
            && (forall k :: |Head(info)| <= k < |h| ==> h[k] == ' ')
            && HelpLineText(info)[..|h|] == h
  {
  }

  /** A line break is written only when the line is already past column 35 and the atom
      would pass column 90; the continuation starts with 35 spaces and the atom without
      its leading whitespace. Otherwise the atom is written as it is. */
  lemma WriteAtomBreaks(linePos: int, atom: string)
    ensures var (text, pos) := WriteAtom(linePos, atom);
            (linePos + |atom| > MaxWidth && linePos > DescStartIndented ==>
               text == "\n" + Spaces(DescStartIndented) + TrimLeft(atom)
               && pos == DescStartIndented + |TrimLeft(atom)|
               && atom == atom[..|atom| - |TrimLeft(atom)|] + TrimLeft(atom))
            && (!(linePos + |atom| > MaxWidth && linePos > DescStartIndented) ==>
               text == atom && pos == linePos + |atom| && (pos <= MaxWidth || linePos <= DescStartIndented))
  {
    if linePos + |atom| > MaxWidth && linePos > DescStartIndented {
      var t := TrimLeft(atom);
      var cut := |atom| - |t|;
      assert atom == atom[..cut] + atom[cut..];
    }
  }

  /** The length of the last line of a text. */
  function Column(s: string): nat
    decreases |s|
  {
    if |s| == 0 then 0 else if s[|s| - 1] == '\n' then 0 else Column(s[..|s| - 1]) + 1
  }

  lemma {:induction false} ColumnAppend(s: string, t: string)
    requires '\n' !in t
    ensures Column(s + t) == Column(s) + |t|
    decreases |t|
  {
    if |t| > 0 {
      var u := t[..|t| - 1];
      assert t == u + [t[|t| - 1]];
      assert '\n' !in u by {
        forall k | 0 <= k < |u| ensures u[k] != '\n' {
          assert u[k] == t[k];
        }
      }
      assert t[|t| - 1] in t;
      assert (s + t)[|s + t| - 1] == t[|t| - 1];
      assert (s + t)[..|s + t| - 1] == s + u;
      ColumnAppend(s, u);
    } else {
      assert s + t == s;
    }
  }

  lemma ColumnAfterNewline(s: string)
    ensures Column(s + "\n") == 0
  {
  }

  lemma ColumnAfterBreak(s: string, n: nat, t: string)
    requires '\n' !in t
    ensures Column(s + "\n" + Spaces(n) + t) == n + |t|
  {
    var sp := Spaces(n);
    forall k | 0 <= k < |sp| ensures sp[k] != '\n' {
    }
    assert '\n' !in sp + t;
    ColumnAfterNewline(s);
    ColumnAppend(s + "\n", sp + t);
    AppendAssoc(s + "\n", sp, t);
  }

  /** linePos is the column: for atoms without newlines, the column after writing them
      is the position writeAtom arrives at. */
  lemma {:induction false} WriteAtomsTracksColumn(out: string, linePos: int, atoms: seq<string>)
    requires Column(out) == linePos
    requires forall i :: 0 <= i < |atoms| ==> '\n' !in atoms[i]
    ensures Column(out + WriteAtoms(linePos, atoms).0) == WriteAtoms(linePos, atoms).1
    decreases |atoms|
  {
    if atoms != [] {
      var first := WriteAtom(linePos, atoms[0]);
      var rest := WriteAtoms(first.1, atoms[1..]);
      assert WriteAtoms(linePos, atoms) == (first.0 + rest.0, rest.1);
      WriteAtomTracksColumn(out, linePos, atoms[0]);
      forall i | 0 <= i < |atoms[1..]| ensures '\n' !in atoms[1..][i] {
        assert atoms[1..][i] == atoms[i + 1];
      }
      WriteAtomsTracksColumn(out + first.0, first.1, atoms[1..]);
      AppendAssoc(out, first.0, rest.0);
    } else {
      assert out + WriteAtoms(linePos, atoms).0 == out;
    }
  }

  lemma AppendAssoc(a: string, b: string, c: string)
    ensures a + (b + c) == (a + b) + c
  {
  }

  lemma WriteAtomTracksColumn(out: string, linePos: int, atom: string)
    requires Column(out) == linePos && '\n' !in atom
    ensures Column(out + WriteAtom(linePos, atom).0) == WriteAtom(linePos, atom).1
  {
    if linePos + |atom| > MaxWidth && linePos > DescStartIndented {
      var t := TrimLeft(atom);
      assert '\n' !in t by {
        forall k | 0 <= k < |t| ensures t[k] != '\n' {
          assert t[k] == atom[|atom| - |t| + k];
          assert atom[|atom| - |t| + k] in atom;
        }
      }
      ColumnAfterBreak(out, DescStartIndented, t);
      assert out + WriteAtom(linePos, atom).0 == out + "\n" + Spaces(DescStartIndented) + t;
    } else {
      ColumnAppend(out, atom);
    }
  }

  lemma AtomStep(ss: string, linePos: int, x: string, rest: seq<string>, target: string)
    requires ss + WriteAtoms(linePos, [x] + rest).0 == target
    ensures (ss + WriteAtom(linePos, x).0) + WriteAtoms(WriteAtom(linePos, x).1, rest).0 == target
  {
    assert ([x] + rest)[1..] == rest;
  }

  lemma SpacesSnoc(n: nat)
    ensures Spaces(n) + " " == Spaces(n + 1)
  {
  }

  /** writeAtom as written: the break, the indentation loop and the loop that skips the
      atom's leading whitespace. */
  method WriteAtomTo(ss0: string, linePos0: int, atom0: string) returns (ss: string, linePos: int)
    ensures ss == ss0 + WriteAtom(linePos0, atom0).0 && linePos == WriteAtom(linePos0, atom0).1
  {
    ss := ss0;
    linePos := linePos0;
    var atom := atom0;
    if linePos + |atom| > MaxWidth && linePos > DescStartIndented {
      ss := AppendSpaces(ss + "\n", DescStartIndented);
      linePos := DescStartIndented;
      var s := SkipSpaces(atom);
      atom := atom[s..];
      AppendAssoc(ss0, "\n", Spaces(DescStartIndented));
      AppendAssoc(ss0, "\n" + Spaces(DescStartIndented), atom);
    }
    ss := ss + atom;
    linePos := linePos + |atom|;
  }

  /** The loop writing the indentation of a continuation line. */
  method AppendSpaces(ss0: string, n: nat) returns (ss: string)
    ensures ss == ss0 + Spaces(n)
  {
    ss := ss0;
    var i := 0;
    while i < n
      invariant i <= n
      invariant ss == ss0 + Spaces(i)
    {
      SpacesSnoc(i);
      ss := ss + " ";
      i := i + 1;
    }
  }

  /** The loop skipping the leading whitespace of an atom. */
  method SkipSpaces(atom: string) returns (s: nat)
    ensures s <= |atom| && atom[s..] == TrimLeft(atom)
  {
    s := 0;
    while s < |atom| && IsSpace(atom[s])
      invariant s <= |atom|
      invariant TrimLeft(atom[s..]) == TrimLeft(atom)
    {
      assert atom[s..][1..] == atom[s + 1..];
      s := s + 1;
    }
  }

  /** helpLine as written: the head padded by a loop, then the description cut into atoms
      by the two index loops, then the default. */
  method HelpLine(info: OptInfo) returns (line: string)
    ensures line == HelpLineText(info)
  {
    var ss := Head(info);
    while |ss| < DescStart
      invariant Padded(ss) == Padded(Head(info))
      decreases DescStart - |ss|
    {
      SpacesSnoc(DescStart - |ss| - 1);
      assert ss + Spaces(DescStart - |ss|) == ss + " " + Spaces(DescStart - |ss| - 1);
      ss := ss + " ";
    }
    assert ss == Padded(Head(info));
    var linePos := |ss|;
    var desc := info.desc;
    var last := DefaultAtom(info);
    ghost var target := HelpLineText(info);
    var a := 0;
    while a < |desc|
      invariant a <= |desc|
      invariant ss + WriteAtoms(linePos, Atoms(desc, a) + [last]).0 == target
      decreases |desc| - a
    {
      var b := a + 1;
      while b < |desc| && !IsSpace(desc[b])
        invariant a + 1 <= b <= |desc|
        invariant AtomEnd(desc, b) == AtomEnd(desc, a + 1)
      {
        b := b + 1;
      }
      ghost var rest := Atoms(desc, b) + [last];
      assert Atoms(desc, a) + [last] == [desc[a..b]] + rest;
      AtomStep(ss, linePos, desc[a..b], rest, target);
      ss, linePos := WriteAtomTo(ss, linePos, desc[a..b]);
      a := b;
    }
    AtomStep(ss, linePos, last, [], target);
    ss, linePos := WriteAtomTo(ss, linePos, last);
    line := ss;
  }

  // ---------------------------------------------------------------- the help text

  /** std::string's operator<= : byte-wise lexicographic order. */
  predicate StrLe(a: string, b: string)
    decreases |a|
  {
    |a| == 0 || (|b| > 0 && (a[0] < b[0] || (a[0] == b[0] && StrLe(a[1..], b[1..]))))
  }

  lemma {:induction false} StrLeTotal(a: string, b: string)
    ensures StrLe(a, b) || StrLe(b, a)
    decreases |a|
  {
    if |a| > 0 && |b| > 0 && a[0] == b[0] {
      StrLeTotal(a[1..], b[1..]);
    }
  }

  lemma {:induction false} StrLeTrans(a: string, b: string, c: string)
    requires StrLe(a, b) && StrLe(b, c)
    ensures StrLe(a, c)
    decreases |a|
  {
    if |a| > 0 && a[0] == b[0] && b[0] == c[0] {
      StrLeTrans(a[1..], b[1..], c[1..]);
    }
  }

  predicate SortedLines(s: seq<string>)
  {
    forall i, j :: 0 <= i < j < |s| ==> StrLe(s[i], s[j])
  }

  function InsertLine(x: string, s: seq<string>): seq<string>
    decreases |s|
  {
    if s == [] then [x] else if StrLe(x, s[0]) then [x] + s else [s[0]] + InsertLine(x, s[1..])
  }

  /** The sort of the collected help lines. */
  function SortLines(s: seq<string>): seq<string>
    decreases |s|
  {
    if s == [] then [] else InsertLine(s[0], SortLines(s[1..]))
  }

  /** A lower bound of x and of all of s bounds every line of a permutation of s + [x]. */
  lemma BoundsPermutation(lo: string, x: string, s: seq<string>, r: seq<string>)
    requires multiset(r) == multiset(s) + multiset{x}
    requires StrLe(lo, x) && forall k :: 0 <= k < |s| ==> StrLe(lo, s[k])
    ensures forall k :: 0 <= k < |r| ==> StrLe(lo, r[k])
  {
    forall k | 0 <= k < |r| ensures StrLe(lo, r[k]) {
      assert r[k] in multiset(r);
      if r[k] != x {
        assert r[k] in multiset(s);
        var m :| 0 <= m < |s| && s[m] == r[k];
      }
    }
  }

  /** A line below every line of a sorted list can go in front of it. */
  lemma ConsSorted(h: string, r: seq<string>)
    requires SortedLines(r) && forall k :: 0 <= k < |r| ==> StrLe(h, r[k])
    ensures SortedLines([h] + r)
  {
    var t := [h] + r;
    forall i, j | 0 <= i < j < |t| ensures StrLe(t[i], t[j]) {
      if i == 0 {
        assert t[j] == r[j - 1];
      } else {
        assert t[i] == r[i - 1] && t[j] == r[j - 1];
      }
    }
  }

  /** The tail of a sorted list is sorted and bounded below by its head. */
  lemma TailSorted(s: seq<string>)
    requires SortedLines(s) && s != []
    ensures SortedLines(s[1..])
    ensures forall k :: 0 <= k < |s[1..]| ==> StrLe(s[0], s[1..][k])
  {
    var tail := s[1..];
    forall i, j | 0 <= i < j < |tail| ensures StrLe(tail[i], tail[j]) {
      assert tail[i] == s[i + 1] && tail[j] == s[j + 1];
    }
    forall k | 0 <= k < |tail| ensures StrLe(s[0], tail[k]) {
      assert tail[k] == s[k + 1];
    }
  }

  lemma {:induction false} InsertLinePerm(x: string, s: seq<string>)
    ensures multiset(InsertLine(x, s)) == multiset(s) + multiset{x}
    decreases |s|
  {
    if s != [] && !StrLe(x, s[0]) {
      InsertLinePerm(x, s[1..]);
      assert s == [s[0]] + s[1..];
    }
  }

  lemma {:induction false} InsertLineKeeps(x: string, s: seq<string>)
    requires SortedLines(s)
    ensures SortedLines(InsertLine(x, s))
    ensures multiset(InsertLine(x, s)) == multiset(s) + multiset{x}
    decreases |s|
  {
    InsertLinePerm(x, s);
    if s != [] {
      TailSorted(s);
      if StrLe(x, s[0]) {
        forall k | 0 <= k < |s| ensures StrLe(x, s[k]) {
          if k > 0 {
            StrLeTrans(x, s[0], s[k]);
          }
        }
        ConsSorted(x, s);
      } else {
        StrLeTotal(x, s[0]);
        InsertLineKeeps(x, s[1..]);
        InsertLinePerm(x, s[1..]);
        BoundsPermutation(s[0], x, s[1..], InsertLine(x, s[1..]));
        ConsSorted(s[0], InsertLine(x, s[1..]));
      }
    }
  }

  lemma {:induction false} SortLinesPerm(s: seq<string>)
    ensures multiset(SortLines(s)) == multiset(s)
    decreases |s|
  {
    if s != [] {
      SortLinesPerm(s[1..]);
      InsertLinePerm(s[0], SortLines(s[1..]));
      assert s == [s[0]] + s[1..];
    }
  }

  /** The help lines come out in order and are exactly the lines collected. */
  lemma {:induction false} SortLinesSorts(s: seq<string>)
    ensures SortedLines(SortLines(s))
    ensures multiset(SortLines(s)) == multiset(s)
    decreases |s|
  {
    SortLinesPerm(s);
    if s != [] {
      SortLinesSorts(s[1..]);
      InsertLineKeeps(s[0], SortLines(s[1..]));
    }
  }

  const HelpEntry: string := "  --help                         show this help and exit"
  const VersionEntry: string := "  --version                      show the version and exit"

  function HelpLineTexts(table: seq<OptInfo>): seq<string>
  {
    seq(|table|, i requires 0 <= i < |table| => HelpLineText(table[i]))
  }

  /** The text printed for --help: one line per option and two for --help and --version,
      sorted. */
  function HelpLines(table: seq<OptInfo>): seq<string>
  {
    SortLines(HelpLineTexts(table) + [HelpEntry, VersionEntry])
  }

  /** The help line of every option of the table, in table order. */
  method CollectHelpLines(table: seq<OptInfo>) returns (collected: seq<string>)
    ensures collected == HelpLineTexts(table)
  {
    collected := [];
    for i := 0 to |table|
      invariant |collected| == i
      invariant forall k :: 0 <= k < i ==> collected[k] == HelpLineText(table[k])
    {
      var l := HelpLine(table[i]);
      collected := collected + [l];
    }
  }

  method HelpText(table: seq<OptInfo>) returns (lines: seq<string>)
    ensures lines == HelpLines(table)
  {
    var collected := CollectHelpLines(table);
    collected := collected + [HelpEntry, VersionEntry];
    lines := SortLines(collected);
  }

  // ---------------------------------------------------------------- Config::read

  datatype ReadError =
    | Duplicate(name: string)
    | InvalidValue(name: string, value: string)
    | ValueMissing(arg: string)
    | Unrecognized(arg: string)

  /** What Config::read ends with: the option values, or what it printed instead. */
  datatype ReadResult =
    | Parsed(values: map<string, Value>)
    | ShowHelp(usage: string, lines: seq<string>)
    | ShowVersion(version: string)
    | Failed(error: ReadError)

  /** The option with a name, if the table has one. */
  function Lookup(table: seq<OptInfo>, name: string): Option<OptInfo>
    decreases |table|
  {
    if table == [] then None
    else if table[0].name == name then Some(table[0])
    else Lookup(table[1..], name)
  }

  function Names(table: seq<OptInfo>): set<string>
  {
    set i | 0 <= i < |table| :: table[i].name
  }

  /** Every option at its default value. */
  function Defaults(table: seq<OptInfo>): map<string, Value>
  {
    map n | n in Names(table) && Lookup(table, n).Some? :: Lookup(table, n).value.defaultVal
  }

  /** An argument starting with "--" and holding '=' gives the text between them and the
      text after the first '='. */
  function SplitOption(arg: string): Option<(string, string)>
  {
    if |arg| >= 2 && arg[..2] == "--" then
      var e := 2 + IndexOf(arg[2..], '=');
      if e < |arg| then Some((arg[2..e], arg[e + 1..])) else None
    else None
  }

  /** The option's handler: parse, then validate. */
  function HandleValue(info: OptInfo, valStr: string): Option<Value>
  {
    match ParseValue(info.kind, valStr)
    case Some(v) => if info.validate(v) then Some(v) else None
    case None => None
  }

  datatype Step = Accept(name: string, value: Value) | Stop(result: ReadResult)

  function Usage(program: string): string
  {
    "USAGE: " + program + " [OPTION]..."
  }

  /** What one argument does, given the options already seen. */
  function Classify(table: seq<OptInfo>, program: string, seen: set<string>, arg: string): Step
  {
    if arg == "--help" then Stop(ShowHelp(Usage(program), HelpLines(table)))
    else if arg == "--version" then Stop(ShowVersion(BrowserviceVersion))
    else if SplitOption(arg).Some? && Lookup(table, SplitOption(arg).value.0).Some? then
      var name := SplitOption(arg).value.0;
      var valStr := SplitOption(arg).value.1;
      if name in seen then Stop(Failed(Duplicate(name)))
      else match HandleValue(Lookup(table, name).value, valStr)
        case Some(v) => Accept(name, v)
        case None => Stop(Failed(InvalidValue(name, valStr)))
    else if |arg| >= 2 && arg[..2] == "--" && Lookup(table, arg[2..]).Some? then
      Stop(Failed(ValueMissing(arg)))
    else Stop(Failed(Unrecognized(arg)))
  }

  function ReadArgs(table: seq<OptInfo>, program: string, seen: set<string>,
                    values: map<string, Value>, args: seq<string>): ReadResult
    decreases |args|
  {
    if args == [] then Parsed(values)
    else
      match Classify(table, program, seen, args[0])
      case Accept(name, v) => ReadArgs(table, program, seen + {name}, values[name := v], args[1..])
      case Stop(r) => r
  }

  /** Config::read: argv[0] is the program name. */
  function Read(table: seq<OptInfo>, argv: seq<string>): ReadResult
    requires |argv| >= 1
  {
    ReadArgs(table, argv[0], {}, Defaults(table), argv[1..])
  }

  // ---------------------------------------------------------------- properties of read

  lemma IndexOfIs(s: string, i: nat)
    requires i <= |s| && (forall k :: 0 <= k < i ==> s[k] != '=') && (i < |s| ==> s[i] == '=')
    ensures IndexOf(s, '=') == i
  {
  }

  /** "--name=value" splits into name and value exactly when name holds no '='; the value
      may hold any number of them. */
  lemma SplitOptionIff(arg: string, name: string, value: string)
    ensures SplitOption(arg) == Some((name, value))
            <==> arg == "--" + name + "=" + value && '=' !in name
  {
    if arg == "--" + name + "=" + value && '=' !in name {
      assert arg[2..] == name + "=" + value;
      IndexOfIs(arg[2..], |name|);
      assert arg[2..2 + |name|] == name;
      assert arg[2 + |name| + 1..] == value;
    }
    if SplitOption(arg) == Some((name, value)) {
      var e := 2 + IndexOf(arg[2..], '=');
      assert arg == arg[..2] + arg[2..e] + [arg[e]] + arg[e + 1..];
      assert forall k :: 0 <= k < |name| ==> name[k] == arg[2..][k];
    }
  }

  /** Names of the successive arguments; the name of an argument without a known option
      does not matter. */
  function ArgName(arg: string): string
  {
    if SplitOption(arg).Some? then SplitOption(arg).value.0 else ""
  }

  /** An argument that sets a known option to a value that parses and validates. */
  predicate ArgOk(table: seq<OptInfo>, arg: string)
  {
    SplitOption(arg).Some? && Lookup(table, ArgName(arg)).Some?
    && HandleValue(Lookup(table, ArgName(arg)).value, SplitOption(arg).value.1).Some?
  }

  function ArgValue(table: seq<OptInfo>, arg: string): Value
    requires ArgOk(table, arg)
  {
    HandleValue(Lookup(table, ArgName(arg)).value, SplitOption(arg).value.1).value
  }

  function NamesOf(args: seq<string>): set<string>
  {
    set i | 0 <= i < |args| :: ArgName(args[i])
  }

  /** An argument is taken exactly when it sets a known option, not seen before, to a
      value that parses and validates. */
  lemma ClassifyAcceptsIff(table: seq<OptInfo>, program: string, seen: set<string>, arg: string)
    ensures Classify(table, program, seen, arg).Accept? <==> ArgOk(table, arg) && ArgName(arg) !in seen
    ensures ArgOk(table, arg) && ArgName(arg) !in seen ==>
              Classify(table, program, seen, arg) == Accept(ArgName(arg), ArgValue(table, arg))
    ensures Classify(table, program, seen, arg).Stop? ==> !Classify(table, program, seen, arg).result.Parsed?
  {
    if ArgOk(table, arg) && ArgName(arg) !in seen {
      var name := ArgName(arg);
      var value := SplitOption(arg).value.1;
      SplitOptionIff(arg, name, value);
      assert arg != "--help" && arg != "--version" by {
        assert arg[2 + |name|] == '=';
      }
    }
  }

  predicate DistinctNames(args: seq<string>)
  {
    forall i, j :: 0 <= i < j < |args| ==> ArgName(args[i]) != ArgName(args[j])
  }

  predicate AllOk(table: seq<OptInfo>, args: seq<string>)
  {
    forall i :: 0 <= i < |args| ==> ArgOk(table, args[i])
  }

  /** Peeling off the first argument. */
  lemma PeelFirst(table: seq<OptInfo>, args: seq<string>)
    requires args != []
    ensures NamesOf(args) == {ArgName(args[0])} + NamesOf(args[1..])
    ensures DistinctNames(args) <==> ArgName(args[0]) !in NamesOf(args[1..]) && DistinctNames(args[1..])
    ensures AllOk(table, args) <==> ArgOk(table, args[0]) && AllOk(table, args[1..])
  {
    var tail := args[1..];
    assert forall i :: 0 <= i < |tail| ==> tail[i] == args[i + 1];
    forall n | n in NamesOf(args) ensures n in {ArgName(args[0])} + NamesOf(tail) {
      var i :| 0 <= i < |args| && ArgName(args[i]) == n;
      if i > 0 {
        assert ArgName(tail[i - 1]) == n;
      }
    }
    if DistinctNames(args) {
      forall j | 0 <= j < |tail| ensures ArgName(tail[j]) != ArgName(args[0]) {
        assert ArgName(args[j + 1]) != ArgName(args[0]);
      }
    }
    if ArgName(args[0]) !in NamesOf(tail) && DistinctNames(tail) {
      forall i, j | 0 <= i < j < |args| ensures ArgName(args[i]) != ArgName(args[j]) {
        assert ArgName(args[j]) == ArgName(tail[j - 1]);
        if i > 0 {
          assert ArgName(args[i]) == ArgName(tail[i - 1]);
        } else {
          assert ArgName(tail[j - 1]) in NamesOf(tail);
        }
      }
    }
    if ArgOk(table, args[0]) && AllOk(table, tail) {
      forall i | 0 <= i < |args| ensures ArgOk(table, args[i]) {
        if i > 0 {
          assert args[i] == tail[i - 1];
        }
      }
    }
  }

  lemma NotInDisjoint(a: set<string>, b: set<string>, x: string)
    requires a * b == {} && x in a
    ensures x !in b
  {
    assert x !in a * b;
  }

  /** The names of the arguments after a taken one avoid the options seen by then. */
  lemma DisjointAdd(a: set<string>, name: string, seen: set<string>)
    ensures (({name} + a) * seen == {} && name !in a) <==> (name !in seen && a * (seen + {name}) == {})
  {
    assert ({name} + a) * seen == ({name} * seen) + (a * seen);
    assert a * (seen + {name}) == (a * seen) + (a * {name});
    assert name in seen ==> name in {name} * seen;
    assert name in a ==> name in a * {name};
  }

  /** An argument that is taken moves reading on to the next one. */
  lemma ReadArgsAcceptStep(table: seq<OptInfo>, program: string, seen: set<string>,
                           values: map<string, Value>, args: seq<string>)
    requires args != [] && ArgOk(table, args[0]) && ArgName(args[0]) !in seen
    ensures ReadArgs(table, program, seen, values, args)
         == ReadArgs(table, program, seen + {ArgName(args[0])},
                     values[ArgName(args[0]) := ArgValue(table, args[0])], args[1..])
  {
    ClassifyAcceptsIff(table, program, seen, args[0]);
  }

  /** Reading succeeds exactly when every argument sets a known option to a valid value,
      no option is set twice, and none of them was seen before. */
  lemma {:induction false} ReadArgsSucceedsIff(table: seq<OptInfo>, program: string, seen: set<string>,
                                               values: map<string, Value>, args: seq<string>)
    ensures ReadArgs(table, program, seen, values, args).Parsed?
            <==> AllOk(table, args) && DistinctNames(args) && NamesOf(args) * seen == {}
    decreases |args|
  {
    if args != [] {
      var arg := args[0];
      PeelFirst(table, args);
      ClassifyAcceptsIff(table, program, seen, arg);
      if ArgOk(table, arg) && ArgName(arg) !in seen {
        var name := ArgName(arg);
        DisjointAdd(NamesOf(args[1..]), name, seen);
        ReadArgsSucceedsIff(table, program, seen + {name}, values[name := ArgValue(table, arg)], args[1..]);
      } else if ArgName(arg) in seen {
        assert ArgName(arg) in NamesOf(args) * seen;
      }
    }
  }

  /** On success each option named by an argument holds that argument's value and every
      other option keeps the value it had. */
  lemma {:induction false} ReadArgsValues(table: seq<OptInfo>, program: string, seen: set<string>,
                                          values: map<string, Value>, args: seq<string>)
    requires ReadArgs(table, program, seen, values, args).Parsed?
    ensures var vals := ReadArgs(table, program, seen, values, args).values;
            vals.Keys == values.Keys + NamesOf(args)
            && (forall i :: 0 <= i < |args| ==>
                  ArgOk(table, args[i]) && ArgName(args[i]) in vals
                  && vals[ArgName(args[i])] == ArgValue(table, args[i]))
            && (forall n :: n in values.Keys && n !in NamesOf(args) ==> vals[n] == values[n])
    decreases |args|
  {
    if args != [] {
      var arg := args[0];
      var tail := args[1..];
      var name := ArgName(arg);
      ReadArgsSucceedsIff(table, program, seen, values, args);
      PeelFirst(table, args);
      assert ArgOk(table, arg) && name !in seen && name !in NamesOf(tail) by {
        assert name in NamesOf(args);
      }
      var v := ArgValue(table, arg);
      ReadArgsAcceptStep(table, program, seen, values, args);
      ReadArgsValues(table, program, seen + {name}, values[name := v], tail);
      var vals := ReadArgs(table, program, seen, values, args).values;
      assert vals == ReadArgs(table, program, seen + {name}, values[name := v], tail).values;
      forall i | 0 <= i < |args|
        ensures ArgOk(table, args[i]) && ArgName(args[i]) in vals
                && vals[ArgName(args[i])] == ArgValue(table, args[i])
      {
        if i > 0 {
          assert args[i] == tail[i - 1];
        }
      }
    }
  }

  lemma NamesAreKnown(table: seq<OptInfo>, name: string)
    ensures Lookup(table, name).Some? ==> name in Names(table) && Lookup(table, name).value.name == name
    decreases |table|
  {
    if Lookup(table, name).Some? && table[0].name != name {
      NamesAreKnown(table[1..], name);
      var i :| 0 <= i < |table[1..]| && table[1..][i].name == name;
      assert table[i + 1].name == name;
    }
  }

  lemma {:induction false} LookupFinds(table: seq<OptInfo>, i: nat)
    requires i < |table|
    ensures Lookup(table, table[i].name).Some?
    decreases i
  {
    if i > 0 && table[0].name != table[i].name {
      LookupFinds(table[1..], i - 1);
    }
  }

  /** Every option has its default. */
  lemma DefaultsCover(table: seq<OptInfo>)
    ensures Defaults(table).Keys == Names(table)
    ensures forall n :: n in Names(table) ==>
              Lookup(table, n).Some? && Defaults(table)[n] == Lookup(table, n).value.defaultVal
  {
    forall n | n in Names(table) ensures Lookup(table, n).Some? {
      var i :| 0 <= i < |table| && table[i].name == n;
      LookupFinds(table, i);
    }
  }

  /** Config::read succeeds exactly when every argument after the program name sets a
      known option, once, to a value that parses and validates. */
  lemma ReadSucceedsIff(table: seq<OptInfo>, argv: seq<string>)
    requires |argv| >= 1
    ensures Read(table, argv).Parsed? <==> AllOk(table, argv[1..]) && DistinctNames(argv[1..])
  {
    ReadArgsSucceedsIff(table, argv[0], {}, Defaults(table), argv[1..]);
  }

  /** After a successful read each option named by an argument holds that argument's
      value and every other option its default. */
  lemma ReadValues(table: seq<OptInfo>, argv: seq<string>)
    requires |argv| >= 1 && Read(table, argv).Parsed?
    ensures var args := argv[1..];
            var vals := Read(table, argv).values;
            vals.Keys == Names(table)
            && (forall i :: 0 <= i < |args| ==>
                  ArgOk(table, args[i]) && ArgName(args[i]) in vals
                  && vals[ArgName(args[i])] == ArgValue(table, args[i]))
            && (forall n :: n in Names(table) && n !in NamesOf(args) ==>
                  Lookup(table, n).Some? && vals[n] == Lookup(table, n).value.defaultVal)
  {
    var args := argv[1..];
    DefaultsCover(table);
    ReadArgsValues(table, argv[0], {}, Defaults(table), args);
    forall n | n in NamesOf(args) ensures n in Names(table) {
      var i :| 0 <= i < |args| && ArgName(args[i]) == n;
      NamesAreKnown(table, n);
    }
  }

  /** Reading stops at the first argument that does not set an option: --help and
      --version there end it, as does the error of that argument, whatever follows. */
  lemma {:induction false} ReadArgsStopsAt(table: seq<OptInfo>, program: string, seen: set<string>,
                                           values: map<string, Value>, args: seq<string>, k: nat)
    requires k < |args|
    requires AllOk(table, args[..k]) && DistinctNames(args[..k]) && NamesOf(args[..k]) * seen == {}
    requires Classify(table, program, seen + NamesOf(args[..k]), args[k]).Stop?
    ensures ReadArgs(table, program, seen, values, args)
            == Classify(table, program, seen + NamesOf(args[..k]), args[k]).result
    decreases k
  {
    if k == 0 {
      assert NamesOf(args[..0]) == {};
    } else {
      var name := ArgName(args[0]);
      StopsAtPrefix(table, seen, args, k);
      ReadArgsAcceptStep(table, program, seen, values, args);
      ReadArgsStopsAt(table, program, seen + {name}, values[name := ArgValue(table, args[0])], args[1..], k - 1);
    }
  }

  /** The arguments before the stopping one, with the first one peeled off. */
  lemma StopsAtPrefix(table: seq<OptInfo>, seen: set<string>, args: seq<string>, k: nat)
    requires 0 < k < |args|
    requires AllOk(table, args[..k]) && DistinctNames(args[..k]) && NamesOf(args[..k]) * seen == {}
    ensures ArgOk(table, args[0]) && ArgName(args[0]) !in seen
    ensures var name := ArgName(args[0]);
            var rest := args[1..];
            AllOk(table, rest[..k - 1]) && DistinctNames(rest[..k - 1])
            && NamesOf(rest[..k - 1]) * (seen + {name}) == {}
            && seen + NamesOf(args[..k]) == (seen + {name}) + NamesOf(rest[..k - 1])
            && rest[k - 1] == args[k]
  {
    var pre := args[..k];
    var rest := args[1..];
    var name := ArgName(args[0]);
    assert pre[0] == args[0] && pre[1..] == rest[..k - 1];
    PeelFirst(table, pre);
    NotInDisjoint(NamesOf(pre), seen, name);
  }

  /** Config::read as a whole: the first argument that does not set an option decides. */
  lemma ReadStopsAt(table: seq<OptInfo>, argv: seq<string>, k: nat)
    requires |argv| >= 1 && 1 <= k < |argv|
    requires AllOk(table, argv[1..k]) && DistinctNames(argv[1..k])
    requires Classify(table, argv[0], NamesOf(argv[1..k]), argv[k]).Stop?
    ensures Read(table, argv) == Classify(table, argv[0], NamesOf(argv[1..k]), argv[k]).result
  {
    assert argv[1..][..k - 1] == argv[1..k] && argv[1..][k - 1] == argv[k];
    assert {} + NamesOf(argv[1..k]) == NamesOf(argv[1..k]);
    ReadArgsStopsAt(table, argv[0], {}, Defaults(table), argv[1..], k - 1);
  }

  /** --help and --version end reading wherever they stand, whatever follows. */
  lemma ClassifyHelpVersion(table: seq<OptInfo>, program: string, seen: set<string>)
    ensures Classify(table, program, seen, "--help") == Stop(ShowHelp(Usage(program), HelpLines(table)))
    ensures Classify(table, program, seen, "--version") == Stop(ShowVersion(BrowserviceVersion))
  {
  }

  /** "--name=value" for a known option: an error when the option was set before or
      the value does not parse and validate, otherwise the option is set. */
  lemma ClassifySetsOption(table: seq<OptInfo>, program: string, seen: set<string>,
                           name: string, value: string)
    requires '=' !in name && Lookup(table, name).Some?
    ensures var arg := "--" + name + "=" + value;
            var step := Classify(table, program, seen, arg);
            (name in seen ==> step == Stop(Failed(Duplicate(name))))
            && (name !in seen && HandleValue(Lookup(table, name).value, value).None? ==>
                  step == Stop(Failed(InvalidValue(name, value))))
            && (name !in seen && HandleValue(Lookup(table, name).value, value).Some? ==>
                  step == Accept(name, HandleValue(Lookup(table, name).value, value).value))
  {
    var arg := "--" + name + "=" + value;
    SplitOptionIff(arg, name, value);
    assert arg[2 + |name|] == '=';
  }

  /** "--name" alone for a known option reports the missing value. */
  lemma ClassifyValueMissing(table: seq<OptInfo>, program: string, seen: set<string>, name: string)
    requires '=' !in name && Lookup(table, name).Some?
    requires "--" + name != "--help" && "--" + name != "--version"
    ensures Classify(table, program, seen, "--" + name) == Stop(Failed(ValueMissing("--" + name)))
  {
    var arg := "--" + name;
    assert arg[2..] == name;
    IndexOfIs(arg[2..], |name|);
  }

  predicate StartsWith(s: string, p: string)
  {
    |p| <= |s| && s[..|p|] == p
  }

  /** Anything else is unrecognized: an argument that is not --help or --version and
      does not start with "--" followed by a known name and then '=' or the end. */
  lemma ClassifyUnrecognized(table: seq<OptInfo>, program: string, seen: set<string>, arg: string)
    requires arg != "--help" && arg != "--version"
    requires |arg| < 2 || arg[..2] != "--"
             || (forall n :: n in Names(table) ==> !StartsWith(arg[2..], n + "=") && arg[2..] != n)
    ensures Classify(table, program, seen, arg) == Stop(Failed(Unrecognized(arg)))
  {
    SplitNameKnown(table, arg);
    if |arg| >= 2 {
      NamesAreKnown(table, arg[2..]);
    }
  }

  /** A split argument naming a known option starts with "--", that name and '='. */
  lemma SplitNameKnown(table: seq<OptInfo>, arg: string)
    ensures SplitOption(arg).Some? && Lookup(table, SplitOption(arg).value.0).Some? ==>
              |arg| >= 2 && SplitOption(arg).value.0 in Names(table)
              && StartsWith(arg[2..], SplitOption(arg).value.0 + "=")
  {
    if SplitOption(arg).Some? {
      var n := SplitOption(arg).value.0;
      var v := SplitOption(arg).value.1;
      NamesAreKnown(table, n);
      SplitOptionIff(arg, n, v);
      assert arg[2..] == n + "=" + v;
      assert arg[2..][..|n + "="|] == n + "=";
    }
  }

  // ---------------------------------------------------------------- the loop

  /** One round of reading: the step of the first argument decides what follows. */
  lemma ReadArgsUnfold(table: seq<OptInfo>, program: string, seen: set<string>,
                       values: map<string, Value>, argv: seq<string>, i: nat, step: Step)
    requires i < |argv| && step == Classify(table, program, seen, argv[i])
    ensures step.Stop? ==> ReadArgs(table, program, seen, values, argv[i..]) == step.result
    ensures step.Accept? ==>
              ReadArgs(table, program, seen, values, argv[i..])
              == ReadArgs(table, program, seen + {step.name}, values[step.name := step.value], argv[i + 1..])
  {
    assert argv[i..][0] == argv[i] && argv[i..][1..] == argv[i + 1..];
  }

  /** The loop that looks for the first '=' after "--". */
  method FindEqSign(arg: string) returns (eqSignPos: nat)
    requires |arg| >= 2
    ensures eqSignPos == 2 + IndexOf(arg[2..], '=')
  {
    eqSignPos := 2;
    while eqSignPos < |arg| && arg[eqSignPos] != '='
      invariant 2 <= eqSignPos <= |arg|
      invariant forall k :: 2 <= k < eqSignPos ==> arg[k] != '='
    {
      eqSignPos := eqSignPos + 1;
    }
    IndexOfIs(arg[2..], eqSignPos - 2);
  }

  /** One round of the argument loop. */
  method HandleArg(table: seq<OptInfo>, program: string, optsSeen: set<string>, arg: string)
    returns (step: Step)
    ensures step == Classify(table, program, optsSeen, arg)
  {
    if arg == "--help" {
      var lines := HelpText(table);
      return Stop(ShowHelp(Usage(program), lines));
    }
    if arg == "--version" {
      return Stop(ShowVersion(BrowserviceVersion));
    }
    if |arg| >= 2 && arg[..2] == "--" {
      var eqSignPos := FindEqSign(arg);
      if eqSignPos < |arg| {
        var optName := arg[2..eqSignPos];
        var it := Lookup(table, optName);
        if it.Some? {
          if optName in optsSeen {
            return Stop(Failed(Duplicate(optName)));
          }
          var optVal := arg[eqSignPos + 1..];
          var result := HandleValue(it.value, optVal);
          if result.None? {
            return Stop(Failed(InvalidValue(optName, optVal)));
          }
          return Accept(optName, result.value);
        }
      }
    }
    if |arg| >= 2 && arg[..2] == "--" && Lookup(table, arg[2..]).Some? {
      step := Stop(Failed(ValueMissing(arg)));
    } else {
      step := Stop(Failed(Unrecognized(arg)));
    }
  }

  /** Config::read as written: every option starts at its default, then the argument loop. */
  method ReadConfig(table: seq<OptInfo>, argv: seq<string>) returns (result: ReadResult)
    requires |argv| >= 1
    ensures result == Read(table, argv)
  {
    var src := Defaults(table);
    result := ArgumentLoop(table, argv[0], argv[1..], src);
  }

  /** One round of the argument loop: either the result of the read, or the options
      seen and the values after args[i]. */
  method ReadRound(table: seq<OptInfo>, program: string, args: seq<string>, i: nat,
                   seen: set<string>, values: map<string, Value>)
    returns (stop: Option<ReadResult>, seen': set<string>, values': map<string, Value>)
    requires i < |args|
    ensures stop.Some? ==> ReadArgs(table, program, seen, values, args[i..]) == stop.value
    ensures stop.None? ==> ReadArgs(table, program, seen, values, args[i..])
                           == ReadArgs(table, program, seen', values', args[i + 1..])
  {
    var step := HandleArg(table, program, seen, args[i]);
    ReadArgsUnfold(table, program, seen, values, args, i, step);
    if step.Stop? {
      return Some(step.result), seen, values;
    }
    seen' := seen + {step.name};
    values' := values[step.name := step.value];
    stop := None;
  }

  /** The loop of Config::read over the arguments after the program name (argv[1..]),
      with the set of options seen and the values assigned so far. */
  method ArgumentLoop(table: seq<OptInfo>, program: string, args: seq<string>,
                      src0: map<string, Value>)
    returns (result: ReadResult)
    ensures result == ReadArgs(table, program, {}, src0, args)
  {
    var src := src0;
    var optsSeen: set<string> := {};
    var i := 0;
    while i < |args|
      invariant i <= |args|
      invariant ReadArgs(table, program, optsSeen, src, args[i..])
             == ReadArgs(table, program, {}, src0, args)
      decreases |args| - i
    {
      var stop: Option<ReadResult>;
      stop, optsSeen, src := ReadRound(table, program, args, i, optsSeen, src);
      if stop.Some? {
        return stop.value;
      }
      i := i + 1;
    }
    assert args[i..] == [];
    result := Parsed(src);
  }
}
