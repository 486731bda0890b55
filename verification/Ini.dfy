/** INI files: the entry database, the printer, the line parser and their round trip. */
module Ini {
  import opened Bytes

  datatype Entry = Entry(value: string, transientValue: string, transient: bool)

  /** Sections to entry names to entries, as in the two nested maps of `IniFile`. */
  type Db = map<string, map<string, Entry>>

  function SectionOf(db: Db, section: string): map<string, Entry> {
    if section in db then db[section] else map[]
  }

  function EntryOf(db: Db, section: string, name: string): Entry {
    var entries := SectionOf(db, section);
    if name in entries then entries[name] else Entry("", "", false)
  }

  /** `setRaw`: sections and entries come into being as needed. */
  function SetRaw(db: Db, section: string, name: string, value: string, transient: bool): Db {
    var e := EntryOf(db, section, name);
    var e' := if transient then e.(transientValue := value, transient := true) else e.(value := value);
    db[section := SectionOf(db, section)[name := e']]
  }

  function GetRaw(db: Db, section: string, name: string): Option<string> {
    if name in SectionOf(db, section) then
      var e := EntryOf(db, section, name);
      Some(if e.transient then e.transientValue else e.value)
    else None
  }

  // ---------------------------------------------------------------- one line

  predicate IsSpace(c: char) {
    c == ' ' || c == '\t' || c == '\n' || c == '\r' || c == 0x0B as char || c == 0x0C as char
  }

  predicate IsBlank(c: char) {
    c == ' ' || c == '\t'
  }

  function SkipSpaces(s: string, pos: nat): nat
    decreases |s| - pos
  {
    if pos < |s| && IsSpace(s[pos]) then SkipSpaces(s, pos + 1) else pos
  }

  /** `find`: the first index from `pos` on that holds `c`, or the length. */
  function Find(s: string, c: char, pos: nat): nat
    decreases |s| - pos
  {
    if pos >= |s| then |s| else if s[pos] == c then pos else Find(s, c, pos + 1)
  }

  /** `rfind`: the last index that holds `c`. */
  function FindLast(s: string, c: char): Option<nat> {
    if s == [] then None else if s[|s| - 1] == c then Some(|s| - 1) else FindLast(s[..|s| - 1], c)
  }

  function TrimLeft(s: string): string {
    if s != [] && IsBlank(s[0]) then TrimLeft(s[1..]) else s
  }

  function TrimRight(s: string): string {
    if s != [] && IsBlank(s[|s| - 1]) then TrimRight(s[..|s| - 1]) else s
  }

  function Trim(s: string): string {
    TrimRight(TrimLeft(s))
  }

  datatype Line = Ignored | SectionLine(name: string) | EntryLine(entry: string, value: string)

  /** The value part: one space after the equal sign is not part of it, and quotes are taken off. */
  function ParseValue(text: string): string {
    var v := if text != [] && text[0] == ' ' then text[1..] else text;
    if v != [] && v[0] == '"' then Unquote(v) else v
  }

  function Unquote(v: string): string
    requires v != [] && v[0] == '"'
  {
    match FindLast(v, '"')
    case None => v[1..]
    case Some(end) => if 1 <= end < |v| then v[1..end] else v[1..]
  }

  function ParseLine(line: string): Line {
    var pos := SkipSpaces(line, 0);
    if pos >= |line| || line[pos] == ';' then Ignored
    else if line[pos] == '[' then
      var end := Find(line, ']', pos + 1);
      if end >= |line| || end < pos + 1 then Ignored else SectionLine(line[pos + 1..end])
    else
      var eq := Find(line, '=', pos);
      if eq >= |line| then Ignored
      else
        var name := Trim(line[..eq]);
        if name == [] then Ignored else EntryLine(name, ParseValue(line[eq + 1..]))
  }

  // ---------------------------------------------------------------- which lines parse back

  lemma {:induction false} SkipSpacesIs(s: string, pos: nat, k: nat)
    requires pos <= k <= |s|
    requires forall i :: pos <= i < k ==> IsSpace(s[i])
    requires k < |s| ==> !IsSpace(s[k])
    ensures SkipSpaces(s, pos) == k
    decreases k - pos
  {
    if pos >= k {
    } else {
      SkipSpacesIs(s, pos + 1, k);
    }
  }

  lemma {:induction false} SkipSpacesFound(s: string, pos: nat)
    requires pos <= |s|
    ensures pos <= SkipSpaces(s, pos) <= |s|
    ensures forall i :: pos <= i < SkipSpaces(s, pos) ==> IsSpace(s[i])
    ensures SkipSpaces(s, pos) < |s| ==> !IsSpace(s[SkipSpaces(s, pos)])
    decreases |s| - pos
  {
    if pos < |s| && IsSpace(s[pos]) {
      SkipSpacesFound(s, pos + 1);
    }
  }

  lemma {:induction false} FindIs(s: string, c: char, pos: nat, k: nat)
    requires pos <= k <= |s|
    requires forall i :: pos <= i < k ==> s[i] != c
    requires k < |s| ==> s[k] == c
    ensures Find(s, c, pos) == k
    decreases k - pos
  {
    if pos >= k {
    } else {
      FindIs(s, c, pos + 1, k);
    }
  }

  lemma {:induction false} FindFound(s: string, c: char, pos: nat)
    requires pos <= |s|
    ensures pos <= Find(s, c, pos) <= |s|
    ensures Find(s, c, pos) < |s| ==> s[Find(s, c, pos)] == c
    ensures forall i :: pos <= i < Find(s, c, pos) ==> s[i] != c
    decreases |s| - pos
  {
    if pos < |s| && s[pos] != c {
      FindFound(s, c, pos + 1);
    }
  }

  lemma {:induction false} TrimLeftFacts(s: string)
    ensures |TrimLeft(s)| <= |s|
    ensures TrimLeft(s) != [] ==> !IsBlank(TrimLeft(s)[0])
    ensures s == [] || !IsBlank(s[0]) ==> TrimLeft(s) == s
  {
    if s != [] && IsBlank(s[0]) {
      TrimLeftFacts(s[1..]);
    }
  }

  lemma {:induction false} TrimRightFacts(s: string)
    ensures TrimRight(s) <= s
    ensures TrimRight(s) != [] ==> !IsBlank(TrimRight(s)[|TrimRight(s)| - 1])
    ensures s == [] || !IsBlank(s[|s| - 1]) ==> TrimRight(s) == s
  {
    if s != [] && IsBlank(s[|s| - 1]) {
      TrimRightFacts(s[..|s| - 1]);
    }
  }

  predicate NoOuterBlanks(s: string) {
    s != [] && !IsBlank(s[0]) && !IsBlank(s[|s| - 1])
  }

  /** What is left of a name followed by the space before the equal sign. */
  lemma TrimPadded(n: string)
    ensures Trim(n + " ") != [] && Trim(n + " ") == n <==> NoOuterBlanks(n)
  {
    var s := n + " ";
    TrimLeftFacts(s);
    TrimRightFacts(TrimLeft(s));
    if NoOuterBlanks(n) {
      assert s[0] == n[0];
      assert TrimLeft(s) == s;
      assert s[..|s| - 1] == n;
      TrimRightFacts(n);
    }
  }

  /** The first character that is not white space does not start a comment or a section. */
  predicate PlainStart(n: string) {
    var k := SkipSpaces(n, 0);
    k < |n| ==> n[k] != ';' && n[k] != '['
  }

  predicate GoodName(n: string) {
    NoOuterBlanks(n) && '=' !in n && PlainStart(n)
  }

  predicate GoodValue(v: string) {
    v == [] || v[0] != '"'
  }

  function EntryText(n: string, v: string): string {
    n + " = " + v
  }

  lemma {:induction false} FindLastBound(v: string, c: char)
    ensures FindLast(v, c).Some? ==> FindLast(v, c).value < |v|
  {
    if v != [] && v[|v| - 1] != c {
      FindLastBound(v[..|v| - 1], c);
    }
  }

  /** A value that starts with a quote never comes back. */
  lemma ValueComesBack(v: string)
    ensures ParseValue(" " + v) == v <==> GoodValue(v)
  {
    assert (" " + v)[1..] == v;
    FindLastBound(v, '"');
    if v != [] && v[0] == '"' {
      assert |Unquote(v)| < |v|;
    }
  }

  lemma EntryTextAt(n: string, v: string)
    ensures var line := EntryText(n, v);
      && (forall i :: 0 <= i < |n| ==> line[i] == n[i])
      && |line| > |n| + 1 && line[|n|] == ' ' && line[|n| + 1] == '='
  {
  }

  /** Where the scan of a printed entry stops. */
  lemma EntryStart(n: string, v: string)
    ensures var line, k := EntryText(n, v), SkipSpaces(n, 0);
      && k <= |n|
      && SkipSpaces(line, 0) == (if k < |n| then k else |n| + 1)
  {
    assert IsSpace(' ') && !IsSpace('=');
    hide SkipSpaces, EntryText, IsSpace;
    var line, k := EntryText(n, v), SkipSpaces(n, 0);
    EntryTextAt(n, v);
    SkipSpacesFound(n, 0);
    if k < |n| {
      SkipSpacesIs(line, 0, k);
    } else {
      SkipSpacesIs(line, 0, |n| + 1);
    }
  }

  /** Where the scan of a printed entry stops, and where its equal sign is found. */
  lemma EntryScan(n: string, v: string)
    ensures var line, k := EntryText(n, v), SkipSpaces(n, 0);
      && k <= |n|
      && SkipSpaces(line, 0) == (if k < |n| then k else |n| + 1)
      && ('=' !in n ==> Find(line, '=', SkipSpaces(line, 0)) == |n| + 1)
      && ('=' in n && k < |n| ==> Find(line, '=', k) < |n|)
      && ('=' in n ==> k < |n|)
  {
    assert !IsSpace('=');
    hide SkipSpaces, Find, EntryText, IsSpace;
    var line, k := EntryText(n, v), SkipSpaces(n, 0);
    EntryStart(n, v);
    EntryTextAt(n, v);
    SkipSpacesFound(n, 0);
    if '=' !in n {
      FindIs(line, '=', SkipSpaces(line, 0), |n| + 1);
    } else {
      var i :| 0 <= i < |n| && n[i] == '=';
      assert k <= i;
      FindFound(line, '=', k);
    }
  }

  /** An entry with a good name parses to that name and whatever its value reads back as. */
  lemma GoodNameParses(n: string, v: string)
    requires GoodName(n)
    ensures ParseLine(EntryText(n, v)) == EntryLine(n, ParseValue(" " + v))
  {
    hide SkipSpaces, Find, Trim, ParseValue;
    var line := EntryText(n, v);
    EntryScan(n, v);
    TrimPadded(n);
    assert line[..|n| + 1] == n + " ";
    assert line[|n| + 2..] == " " + v;
  }

  /** A printed entry parses back exactly when its name and value are good. */
  lemma EntryLineParses(n: string, v: string)
    ensures ParseLine(EntryText(n, v)) == EntryLine(n, v) <==> GoodName(n) && GoodValue(v)
  {
    hide SkipSpaces, Find, Trim, ParseValue;
    var line := EntryText(n, v);
    EntryScan(n, v);
    TrimPadded(n);
    ValueComesBack(v);
    var k := SkipSpaces(n, 0);
    if '=' !in n {
      assert line[..|n| + 1] == n + " ";
      assert line[|n| + 2..] == " " + v;
    } else if n[k] != ';' && n[k] != '[' {
      var eq := Find(line, '=', k);
      ShorterTrim(line[..eq]);
    }
  }

  lemma ShorterTrim(s: string)
    ensures |Trim(s)| <= |s|
  {
    TrimLeftFacts(s);
    TrimRightFacts(TrimLeft(s));
  }

  function SectionText(s: string): string {
    "[" + s + "]"
  }

  lemma SectionLineParses(s: string)
    ensures ParseLine(SectionText(s)) == SectionLine(s) <==> ']' !in s
  {
    var line := SectionText(s);
    SkipSpacesIs(line, 0, 0);
    assert line[0] == '[';
    if ']' !in s {
      FindIs(line, ']', 1, |s| + 1);
      assert line[1..|s| + 1] == s;
    } else {
      FindFound(line, ']', 1);
      var i :| 0 <= i < |s| && s[i] == ']';
      assert line[i + 1] == ']';
    }
  }

  // ---------------------------------------------------------------- what a line can hold

  lemma {:induction false} TrimLeftIsSuffix(s: string) returns (a: nat)
    ensures a <= |s| && TrimLeft(s) == s[a..]
    ensures forall i :: 0 <= i < a ==> IsBlank(s[i])
  {
    a := 0;
    if s != [] && IsBlank(s[0]) {
      var b := TrimLeftIsSuffix(s[1..]);
      a := b + 1;
      assert s[1..][b..] == s[a..];
      assert forall i :: 1 <= i < a ==> s[i] == s[1..][i - 1];
    }
  }

  lemma SliceKeepsPlainStart(s: string, a: nat, b: nat)
    requires a <= b <= |s| && PlainStart(s)
    requires forall i :: 0 <= i < a ==> IsBlank(s[i])
    ensures PlainStart(s[a..b])
  {
    hide SkipSpaces;
    SkipSpacesFound(s[a..b], 0);
    var k := SkipSpaces(s[a..b], 0);
    if k < b - a {
      assert s[a..b][k] == s[a + k];
      assert forall i :: a <= i < a + k ==> s[i] == s[a..b][i - a];
      SkipSpacesIs(s, 0, a + k);
    }
  }

  /** What trimming leaves of a text whose first visible character starts neither a comment nor a section. */
  lemma TrimKeepsPlainStart(s: string)
    requires PlainStart(s) && '=' !in s && Trim(s) != []
    ensures GoodName(Trim(s))
    ensures forall c :: c in Trim(s) ==> c in s
  {
    hide SkipSpaces, TrimLeft, TrimRight, IsBlank, IsSpace, PlainStart;
    var n := Trim(s);
    var a := TrimLeftIsSuffix(s);
    TrimLeftFacts(s);
    TrimRightFacts(TrimLeft(s));
    assert n[0] == TrimLeft(s)[0];
    assert n == s[a..a + |n|];
    SliceKeepsPlainStart(s, a, a + |n|);
  }

  lemma ParseValueKeepsOut(text: string, c: char)
    requires c !in text
    ensures c !in ParseValue(text)
  {
  }

  /** Whatever a line holds, the section or the entry it gives has a name that would be printed safely. */
  lemma ParsedLineIsGood(line: string)
    requires '\n' !in line
    ensures match ParseLine(line)
            case Ignored => true
            case SectionLine(s) => ']' !in s && '\n' !in s
            case EntryLine(n, v) => GoodName(n) && '\n' !in n && '\n' !in v
  {
    hide SkipSpaces, Find, Trim, ParseValue, GoodName;
    var pos := SkipSpaces(line, 0);
    SkipSpacesFound(line, 0);
    if pos < |line| && line[pos] == '[' {
      FindFound(line, ']', pos + 1);
    } else if pos < |line| && line[pos] != ';' {
      var eq := Find(line, '=', pos);
      FindFound(line, '=', pos);
      if eq < |line| && Trim(line[..eq]) != [] {
        var s := line[..eq];
        assert PlainStart(s) by {
          if pos < eq { SkipSpacesIs(s, 0, pos); } else { SkipSpacesIs(s, 0, eq); }
        }
        assert forall i :: 0 <= i < eq ==> s[i] != '=';
        TrimKeepsPlainStart(s);
        ParseValueKeepsOut(line[eq + 1..], '\n');
      }
    }
  }
}
