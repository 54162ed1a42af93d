/** Writing the configuration file and reading it back: conf_write, conf_read_simple and
    conf_set_sym_val (package/config/confdata.c), sym_string_valid
    (package/config/symbol.c). Files are strings. */
module Config {
  import opened Wrappers
  import opened Exprs

  const NUL := '\0'

  // ---------- strings in quotes ----------

  predicate Special(c: char) {
    c == '"' || c == '\\'
  }

  /** What stands between the quotes for a string. */
  function Escape(s: string): string {
    if s == [] then []
    else if Special(s[0]) then ['\\', s[0]] + Escape(s[1..])
    else [s[0]] + Escape(s[1..])
  }

  /** Nothing but the quote and the backslash is escaped, each by one character. */
  lemma {:induction false} EscapeOnly(s: string)
    ensures '"' !in s && '\\' !in s ==> Escape(s) == s
    ensures |Escape(s)| == |s| + multiset(s)['"'] + multiset(s)['\\']
  {
    if s != [] {
      EscapeOnly(s[1..]);
      assert s == [s[0]] + s[1..];
      assert multiset(s) == multiset{s[0]} + multiset(s[1..]);
    }
  }

  // strcspn(str, "\"\\"): the length of the run without special characters
  function PlainRun(s: string): (n: nat)
    ensures n <= |s| && (n < |s| ==> Special(s[n]))
    ensures forall i :: 0 <= i < n ==> !Special(s[i])
  {
    if s == [] || Special(s[0]) then 0 else 1 + PlainRun(s[1..])
  }

  lemma {:induction false} EscapeRun(s: string, n: nat)
    requires n <= |s| && forall i :: 0 <= i < n ==> !Special(s[i])
    ensures Escape(s) == s[..n] + Escape(s[n..])
  {
    if n > 0 {
      EscapeRun(s[1..], n - 1);
      assert s[..n] == [s[0]] + s[1..][..n - 1];
      assert s[n..] == s[1..][n - 1..];
    }
  }

  /** The loop of conf_write: plain runs are written whole, special characters one at a
      time behind a backslash. */
  method WriteEscaped(str: string) returns (out: string)
    ensures out == Escape(str)
    ensures '"' !in str && '\\' !in str ==> out == str
    ensures |out| == |str| + multiset(str)['"'] + multiset(str)['\\']
  {
    EscapeOnly(str);
    hide Escape;
    out := "";
    var rest := str;
    while true
      invariant Escape(str) == out + Escape(rest)
      decreases |rest|
    {
      var l := PlainRun(rest);
      EscapeRun(rest, l);
      Joined(out, rest[..l], Escape(rest[l..]));
      out := out + rest[..l];
      rest := rest[l..];
      EscapeSpecial(rest);
      if rest == [] {
        break;
      }
      Joined(out, ['\\', rest[0]], Escape(rest[1..]));
      out := out + ['\\', rest[0]];
      rest := rest[1..];
    }
  }

  lemma EscapeSpecial(s: string)
    ensures s == [] ==> Escape(s) == []
    ensures s != [] && Special(s[0]) ==> Escape(s) == ['\\', s[0]] + Escape(s[1..])
  {
  }

  lemma Joined(a: string, b: string, c: string)
    ensures a + (b + c) == a + b + c
  {
  }

  /** What is read after an opening quote: the string up to the closing one, a backslash
      standing for the character behind it. Without a closing quote, nothing. */
  function ReadQuoted(s: string): Option<string> {
    if s == [] then None
    else if s[0] == '"' then Some([])
    else if s[0] == '\\' then
      if |s| == 1 then None else Prepend(s[1], ReadQuoted(s[2..]))
    else Prepend(s[0], ReadQuoted(s[1..]))
  }

  function Prepend(c: char, r: Option<string>): Option<string> {
    if r.None? then None else Some([c] + r.value)
  }

  /** Escaping is undone by reading, for every string, whatever follows the closing
      quote. */
  lemma {:induction false} EscapeReadsBack(s: string, quoteAndRest: string)
    requires quoteAndRest != [] && quoteAndRest[0] == '"'
    ensures ReadQuoted(Escape(s) + quoteAndRest) == Some(s)
  {
    var t := Escape(s) + quoteAndRest;
    if s == [] {
      assert t == quoteAndRest;
    } else {
      EscapeReadsBack(s[1..], quoteAndRest);
      if Special(s[0]) {
        assert t[2..] == Escape(s[1..]) + quoteAndRest;
      } else {
        assert t[1..] == Escape(s[1..]) + quoteAndRest;
      }
      assert [s[0]] + s[1..] == s;
    }
  }

  // a NUL-terminated string in a buffer
  ghost predicate CString(buf: array<char>, from: nat, end: nat)
    reads buf
  {
    from <= end < buf.Length && buf[end] == NUL && forall i :: from <= i < end ==> buf[i] != NUL
  }

  // what was decoded already, in front of what is still to come
  ghost function Behind(done: string, r: Option<string>): Option<string> {
    if r.None? then None else Some(done + r.value)
  }

  lemma BehindStep(done: string, c: char, r: Option<string>)
    ensures Behind(done, Prepend(c, r)) == Behind(done + [c], r)
    ensures Behind([], r) == r
    ensures Behind(done, Some([])) == Some(done)
  {
    if r.Some? {
      assert done + ([c] + r.value) == done + [c] + r.value;
      assert [] + r.value == r.value;
    }
    assert done + [] == done;
  }

  // memmove(p2, p2 + 1, strlen(p2))
  method RemoveChar(buf: array<char>, p2: nat, end: nat)
    requires CString(buf, p2, end) && p2 < end
    modifies buf
    ensures CString(buf, p2, end - 1)
    ensures buf[p2..end - 1] == old(buf[p2 + 1..end]) && buf[..p2] == old(buf[..p2])
  {
    forall i | p2 <= i < end {
      buf[i] := buf[i + 1];
    }
  }

  // what is read of a string, by its first character
  lemma ReadStep(s: string)
    ensures s == [] ==> ReadQuoted(s) == None
    ensures s != [] && s[0] == '"' ==> ReadQuoted(s) == Some([])
    ensures |s| == 1 && s[0] == '\\' ==> ReadQuoted(s) == None
    ensures |s| >= 2 && s[0] == '\\' ==> ReadQuoted(s) == Prepend(s[1], ReadQuoted(s[2..]))
    ensures s != [] && !Special(s[0]) ==> ReadQuoted(s) == Prepend(s[0], ReadQuoted(s[1..]))
  {
  }

  /** The loop of conf_set_sym_val, working in place: strpbrk finds the next special
      character, memmove removes a backslash, and the closing quote becomes the end of the
      string. */
  method UnescapeInPlace(buf: array<char>, p: nat, end: nat) returns (ok: bool, len: nat)
    requires CString(buf, p, end)
    modifies buf
    ensures ok <==> ReadQuoted(old(buf[p..end])).Some?
    ensures ok ==> p <= len < buf.Length && buf[len] == NUL && ReadQuoted(old(buf[p..end])) == Some(buf[p..len])
    ensures buf[..p] == old(buf[..p])
  {
    hide ReadQuoted, Prepend;
    ghost var text := buf[p..end];
    var p2, last := p, end;
    BehindStep([], NUL, ReadQuoted(text));
    assert buf[p..p2] == [];
    while p2 < last
      invariant p <= p2 <= last <= end
      invariant CString(buf, p2, last)
      invariant ReadQuoted(text) == Behind(buf[p..p2], ReadQuoted(buf[p2..last]))
      invariant buf[..p] == old(buf[..p])
      decreases last - p2
    {
      ghost var was, done, head := buf[p2..last], buf[p..p2], buf[..p2];
      ReadStep(was);
      if buf[p2] == '"' {
        BehindStep(done, NUL, Some([]));
        buf[p2] := NUL;
        assert buf[p..p2] == done;
        return true, p2;
      }
      var c := buf[p2];
      if c == '\\' {
        RemoveChar(buf, p2, last);
        last := last - 1;
        Prefixes(buf, p, p2, head, done);
        if p2 == last {
          return false, 0;
        }
        SameRest(buf, p2, last, was[1..]);
        assert was[1..][1..] == was[2..];
      } else {
        SameRest(buf, p2, last, was);
      }
      NextChar(buf, p, p2, done);
      BehindStep(done, buf[p2], ReadQuoted(buf[p2 + 1..last]));
      p2 := p2 + 1;
    }
    ReadStep(buf[p2..last]);
    ok, len := false, 0;
  }

  lemma Prefixes(buf: array<char>, p: nat, p2: nat, head: string, done: string)
    requires p <= p2 <= buf.Length && buf[..p2] == head && done == head[p..]
    ensures buf[p..p2] == done && buf[..p] == head[..p]
  {
  }

  lemma SameRest(buf: array<char>, p2: nat, last: nat, was: string)
    requires p2 < last <= buf.Length && buf[p2..last] == was
    ensures was != [] && was[0] == buf[p2] && buf[p2 + 1..last] == was[1..]
  {
  }

  lemma NextChar(buf: array<char>, p: nat, p2: nat, done: string)
    requires p <= p2 < buf.Length && buf[p..p2] == done
    ensures buf[p..p2 + 1] == done + [buf[p2]]
  {
  }

  // ---------- one symbol ----------

  datatype Setting = TriSetting(tri: Tri) | StrSetting(str: string)

  predicate IsDigit(c: char) {
    '0' <= c <= '9'
  }

  predicate IsHexDigit(c: char) {
    IsDigit(c) || 'a' <= c <= 'f' || 'A' <= c <= 'F'
  }

  // sym_string_valid for the types that are stored as strings
  predicate StringValid(ty: SymType, s: string) {
    match ty
    case Str => true
    case Int =>
      var t := if s != [] && s[0] == '-' then s[1..] else s;
      t != [] && (forall c :: c in t ==> IsDigit(c)) && (t[0] == '0' ==> |t| == 1)
    case Hex =>
      var t := if |s| >= 2 && s[0] == '0' && (s[1] == 'x' || s[1] == 'X') then s[2..] else s;
      t != [] && forall c :: c in t ==> IsHexDigit(c)
    case _ => false
  }

  // conf_set_sym_val
  function SetSymVal(ty: SymType, p: string): Option<Setting> {
    match ty
    case Tristate =>
      if p != [] && p[0] == 'm' then Some(TriSetting(MOD)) else SetBool(p)
    case Boolean => SetBool(p)
    case Str =>
      if p == [] || p[0] != '"' then None
      else
        var r := ReadQuoted(p[1..]);
        if r.None? then None else Some(StrSetting(r.value))
    case Int => if StringValid(ty, p) then Some(StrSetting(p)) else None
    case Hex => if StringValid(ty, p) then Some(StrSetting(p)) else None
    case Unknown => None
  }

  function SetBool(p: string): Option<Setting> {
    if p != [] && p[0] == 'y' then Some(TriSetting(YES))
    else if p != [] && p[0] == 'n' then Some(TriSetting(NO))
    else None
  }

  /** A symbol that is to be written, or a heading: the prompt of a visible menu. */
  datatype Item = Entry(name: string, ty: SymType, val: Setting) | Heading(text: string)

  function ItemText(i: Item): string {
    match i
    case Heading(t) => "\n#\n# " + t + "\n#\n"
    case Entry(name, ty, val) => EntryLine(name, ty, val) + "\n"
  }

  function EntryLine(name: string, ty: SymType, val: Setting): string {
    match val
    case TriSetting(t) =>
      if t == NO then "# " + name + " is not set"
      else if t == MOD then name + "=m"
      else name + "=y"
    case StrSetting(s) =>
      if ty == Str then name + "=\"" + Escape(s) + "\"" else name + "=" + s
  }

  function FileText(items: seq<Item>): string {
    if items == [] then "" else ItemText(items[0]) + FileText(items[1..])
  }

  // ---------- the reader ----------

  // strchr: where a character first occurs, or the length of the string
  function IndexOf(s: string, c: char): (k: nat)
    ensures k <= |s| && (k < |s| ==> s[k] == c) && c !in s[..k]
  {
    if s == [] || s[0] == c then 0 else 1 + IndexOf(s[1..], c)
  }

  const LINE_MAX := 1023  // what fgets puts into line[1024]

  function LineLength(text: string): (n: nat)
    requires text != []
    ensures 0 < n <= |text|
  {
    var k := IndexOf(text, '\n');
    var n := if k < |text| then k + 1 else k;
    if n > LINE_MAX then LINE_MAX else n
  }

  // the newline, and a carriage return before it, are cut off
  function StripEol(p: string): string {
    var k := IndexOf(p, '\n');
    if k == |p| then p
    else if k > 0 && p[k - 1] == '\r' then p[..k - 1]
    else p[..k]
  }

  type Types = map<string, SymType>
  type Settings = map<string, Setting>

  const UNSET := "is not set"

  // "# NAME is not set": the name, if the line has that form
  function UnsetName(line: string): Option<string> {
    if |line| < 2 || line[1] != ' ' then None else
    var rest := line[2..];
    var k := IndexOf(rest, ' ');
    if k < |rest| && UNSET <= rest[k + 1..] then Some(rest[..k]) else None
  }

  function ReadUnset(types: Types, acc: Settings, line: string): Settings {
    var name := UnsetName(line);
    if name.Some? && name.value in types && (types[name.value] == Boolean || types[name.value] == Tristate)
    then acc[name.value := TriSetting(NO)]
    else acc
  }

  function ReadAssignment(types: Types, acc: Settings, line: string): Settings {
    var k := IndexOf(line, '=');
    if k == |line| then acc else
    var name, p := line[..k], StripEol(line[k + 1..]);
    if name !in types then acc else
    var val := SetSymVal(types[name], p);
    if val.None? then acc else acc[name := val.value]
  }

  /** One line of conf_read_simple. */
  function ReadLine(types: Types, acc: Settings, line: string): Settings
    requires line != []
  {
    if line[0] == '#' then ReadUnset(types, acc, line)
    else if 'A' <= line[0] <= 'Z' then ReadAssignment(types, acc, line)
    else acc
  }

  function ReadFrom(types: Types, acc: Settings, text: string): Settings
    decreases |text|
  {
    if text == [] then acc
    else ReadFrom(types, ReadLine(types, acc, text[..LineLength(text)]), text[LineLength(text)..])
  }

  /** The loop of conf_read_simple, from cleared settings. */
  method ReadConfig(types: Types, text: string) returns (settings: Settings)
    ensures settings == ReadFrom(types, map[], text)
  {
    settings := map[];
    var rest := text;
    while rest != []
      invariant ReadFrom(types, map[], text) == ReadFrom(types, settings, rest)
      decreases |rest|
    {
      var n := LineLength(rest);
      settings := ReadLine(types, settings, rest[..n]);
      rest := rest[n..];
    }
  }

  // ---------- round trip ----------

  predicate NameChar(c: char) {
    'A' <= c <= 'Z' || 'a' <= c <= 'z' || IsDigit(c) || c == '_'
  }

  predicate NameOk(name: string) {
    name != [] && 'A' <= name[0] <= 'Z' && forall c :: c in name ==> NameChar(c)
  }

  predicate SettingOk(ty: SymType, val: Setting) {
    match ty
    case Boolean => val == TriSetting(NO) || val == TriSetting(YES)
    case Tristate => val.TriSetting?
    case Str => val.StrSetting? && '\n' !in val.str
    case Int => val.StrSetting? && StringValid(ty, val.str)
    case Hex => val.StrSetting? && StringValid(ty, val.str)
    case Unknown => false
  }

  predicate OneLineValue(ty: SymType, val: Setting) {
    match ty
    case Boolean => val == TriSetting(NO) || val == TriSetting(YES)
    case Tristate => val.TriSetting?
    case Unknown => false
    case _ => val.StrSetting? && '\n' !in val.str
  }

  // what fits on one line of the file, and of the reader's buffer
  predicate Writable(types: Types, i: Item) {
    match i
    case Entry(name, ty, val) =>
      && NameOk(name) && name in types && types[name] == ty && OneLineValue(ty, val)
      && |EntryLine(name, ty, val)| < LINE_MAX
    case Heading(t) => '\n' !in t && |t| + 2 < LINE_MAX
  }

  // the bool or tristate symbol that a heading is taken to unset
  function NamedBy(types: Types, t: string): Option<string> {
    var name := UnsetName("# " + t);
    if name.Some? && name.value in types && (types[name.value] == Boolean || types[name.value] == Tristate)
    then name else None
  }

  // what is read where a value was written; nothing for what is not a valid number
  function ReadBack(ty: SymType, val: Setting): Option<Setting> {
    if (ty == Int || ty == Hex) && val.StrSetting? then
      var p := StripEol(val.str + "\n");
      if StringValid(ty, p) then Some(StrSetting(p)) else None
    else Some(val)
  }

  /** What reading an item does, whatever it was written for. */
  function Apply(types: Types, acc: Settings, i: Item): Settings {
    match i
    case Entry(name, ty, val) =>
      var r := ReadBack(ty, val);
      if r.Some? then acc[name := r.value] else acc
    case Heading(t) =>
      var name := NamedBy(types, t);
      if name.Some? then acc[name.value := TriSetting(NO)] else acc
  }

  function ApplyAll(types: Types, acc: Settings, items: seq<Item>): Settings
    decreases |items|
  {
    if items == [] then acc else ApplyAll(types, Apply(types, acc, items[0]), items[1..])
  }

  lemma {:induction false} IndexAfter(s: string, c: char, t: string)
    requires c !in s
    ensures IndexOf(s + [c] + t, c) == |s|
  {
    if s != [] {
      assert (s + [c] + t)[1..] == s[1..] + [c] + t;
      IndexAfter(s[1..], c, t);
    }
  }

  lemma OneLine(types: Types, acc: Settings, line: string, rest: string)
    requires '\n' !in line && |line| < LINE_MAX
    ensures ReadFrom(types, acc, line + "\n" + rest) == ReadFrom(types, ReadLine(types, acc, line + "\n"), rest)
  {
    var text := line + "\n" + rest;
    IndexAfter(line, '\n', rest);
    assert LineLength(text) == |line| + 1;
    assert text[..|line| + 1] == line + "\n" && text[|line| + 1..] == rest;
  }

  lemma {:induction false} EscapeHasNoNewline(s: string)
    requires '\n' !in s
    ensures '\n' !in Escape(s)
  {
    if s != [] {
      EscapeHasNoNewline(s[1..]);
    }
  }

  lemma StripLine(p: string)
    requires '\n' !in p && (p == [] || p[|p| - 1] != '\r')
    ensures StripEol(p + "\n") == p
  {
    IndexAfter(p, '\n', "");
    assert p + "\n" + "" == p + "\n";
    assert (p + "\n")[..|p|] == p;
  }

  lemma AssignmentReads(types: Types, acc: Settings, name: string, p: string)
    requires NameOk(name) && name in types && '\n' !in p
    ensures var val := SetSymVal(types[name], StripEol(p + "\n"));
      ReadLine(types, acc, name + "=" + p + "\n") == if val.None? then acc else acc[name := val.value]
  {
    hide SetSymVal, StripEol, IndexOf, ReadUnset;
    var line := name + "=" + p + "\n";
    assert line == name + ['='] + (p + "\n");
    IndexAfter(name, '=', p + "\n");
    assert line[..|name|] == name && line[|name| + 1..] == p + "\n";
  }

  lemma UnsetReads(types: Types, acc: Settings, name: string)
    requires NameOk(name) && name in types && (types[name] == Boolean || types[name] == Tristate)
    ensures ReadLine(types, acc, "# " + name + " is not set" + "\n") == acc[name := TriSetting(NO)]
  {
    var line := "# " + name + " is not set" + "\n";
    var rest := line[2..];
    assert rest == name + [' '] + (UNSET + "\n");
    IndexAfter(name, ' ', UNSET + "\n");
    assert rest[..|name|] == name && rest[|name| + 1..] == UNSET + "\n";
  }

  /** What a line that is written for a symbol sets: that symbol, to that value, except that a
      number that is not valid is passed over. */
  lemma EntryReads(types: Types, acc: Settings, name: string, ty: SymType, val: Setting)
    requires Writable(types, Entry(name, ty, val))
    ensures '\n' !in EntryLine(name, ty, val)
    ensures ReadLine(types, acc, EntryLine(name, ty, val) + "\n") == Apply(types, acc, Entry(name, ty, val))
  {
    hide ReadLine;
    match val
    case TriSetting(t) => TriReads(types, acc, name, t);
    case StrSetting(s) =>
      if ty == Str {
        QuotedReadsBack(types, acc, name, s);
      } else {
        AssignmentReads(types, acc, name, s);
      }
  }

  lemma TriReads(types: Types, acc: Settings, name: string, t: Tri)
    requires NameOk(name) && name in types
    requires types[name] == Tristate || (types[name] == Boolean && t != MOD)
    ensures '\n' !in EntryLine(name, types[name], TriSetting(t))
    ensures ReadLine(types, acc, EntryLine(name, types[name], TriSetting(t)) + "\n") == acc[name := TriSetting(t)]
  {
    hide ReadLine, StripEol;
    if t == NO {
      UnsetReads(types, acc, name);
    } else {
      var p := if t == MOD then "m" else "y";
      AssignmentReads(types, acc, name, p);
      StripLine(p);
      assert name + (if t == MOD then "=m" else "=y") == name + "=" + p;
    }
  }

  /** The line written for a symbol sets exactly that symbol, to exactly that value, if and
      only if the value is one of its type: for ints and hexes, a valid number. */
  lemma EntryReadsBackIff(types: Types, name: string, ty: SymType, val: Setting)
    requires Writable(types, Entry(name, ty, val))
    ensures (forall acc: Settings :: ReadLine(types, acc, EntryLine(name, ty, val) + "\n") == acc[name := val])
       <==> SettingOk(ty, val)
  {
    hide ReadLine, EntryLine;
    forall acc: Settings
      ensures ReadLine(types, acc, EntryLine(name, ty, val) + "\n") == Apply(types, acc, Entry(name, ty, val))
    {
      EntryReads(types, acc, name, ty, val);
    }
    if SettingOk(ty, val) {
      ReadBackValid(ty, val);
    } else {
      var none: Settings := map[];
      var r := ReadBack(ty, val);
      assert r != Some(val);
      assert none[name := val][name] == val;
      assert r.Some? ==> none[name := r.value][name] != val;
      assert ReadLine(types, none, EntryLine(name, ty, val) + "\n") != none[name := val];
    }
  }

  lemma ReadBackValid(ty: SymType, val: Setting)
    requires SettingOk(ty, val)
    ensures ReadBack(ty, val) == Some(val)
  {
    if ty == Int || ty == Hex {
      NumberChars(ty, val.str);
      StripLine(val.str);
    }
  }

  /** An int without a value is written as an empty one, which is passed over. */
  lemma EmptyNumberIsLost(types: Types, acc: Settings, name: string)
    requires NameOk(name) && name in types && (types[name] == Int || types[name] == Hex) && |name| + 1 < LINE_MAX
    ensures EntryLine(name, types[name], StrSetting("")) == name + "="
    ensures ReadLine(types, acc, name + "=" + "\n") == acc
  {
    assert name + "=" + "" == name + "=";
    EntryReads(types, acc, name, types[name], StrSetting(""));
    StripLine("");
  }

  lemma NumberChars(ty: SymType, s: string)
    requires (ty == Int || ty == Hex) && StringValid(ty, s)
    ensures '\n' !in s && s != [] && s[|s| - 1] != '\r'
  {
    var n := if ty == Int then (if s[0] == '-' then 1 else 0)
             else if |s| >= 2 && s[0] == '0' && (s[1] == 'x' || s[1] == 'X') then 2 else 0;
    assert s == s[..n] + s[n..];
    assert s[|s| - 1] in s[n..];
    assert forall c :: c in s[n..] ==> IsHexDigit(c);
  }

  lemma QuotedReadsBack(types: Types, acc: Settings, name: string, s: string)
    requires NameOk(name) && name in types && types[name] == Str && '\n' !in s
    ensures '\n' !in EntryLine(name, Str, StrSetting(s))
    ensures ReadLine(types, acc, EntryLine(name, Str, StrSetting(s)) + "\n") == acc[name := StrSetting(s)]
  {
    hide ReadQuoted, Escape, IndexOf, ReadAssignment, ReadUnset;
    var line := EntryLine(name, Str, StrSetting(s));
    EscapeHasNoNewline(s);
    var p := "\"" + Escape(s) + "\"";
    assert line == name + "=" + p;
    AssignmentReads(types, acc, name, p);
    StripLine(p);
    EscapeReadsBack(s, "\"");
    assert p[1..] == Escape(s) + "\"";
  }

  /** What the lines of a heading set: the symbol it seems to name, if there is one. */
  lemma HeadingReads(types: Types, acc: Settings, t: string, rest: string)
    requires Writable(types, Heading(t))
    ensures ReadFrom(types, acc, ItemText(Heading(t)) + rest) == ReadFrom(types, Apply(types, acc, Heading(t)), rest)
  {
    hide ReadFrom, ReadLine, Apply;
    var last := "#" + "\n" + rest;
    var title := "# " + t + "\n" + last;
    var first := "#" + "\n" + title;
    var acc' := Apply(types, acc, Heading(t));
    assert ItemText(Heading(t)) + rest == "" + "\n" + first;
    OneLine(types, acc, "", first);
    OneLine(types, acc, "#", title);
    OneLine(types, acc, "# " + t, last);
    OneLine(types, acc', "#", rest);
    HeadingLines(types, acc, t);
    HeadingLines(types, acc', t);
  }

  lemma HeadingLines(types: Types, acc: Settings, t: string)
    requires Writable(types, Heading(t))
    ensures ReadLine(types, acc, "" + "\n") == acc
    ensures ReadLine(types, acc, "#" + "\n") == acc
    ensures ReadLine(types, acc, "# " + t + "\n") == Apply(types, acc, Heading(t))
  {
    HeadingNames(t);
  }

  lemma NothingRead(types: Types, acc: Settings)
    ensures ReadFrom(types, acc, "") == acc
  {
  }

  // whatever was read before and is read after
  ghost predicate Skipped(types: Types, text: string) {
    forall acc: Settings, rest: string :: ReadFrom(types, acc, text + rest) == ReadFrom(types, acc, rest)
  }

  /** A heading is skipped, in every file, if and only if it does not name a bool or tristate
      symbol in front of words that begin with "is not set". */
  lemma HeadingSkippedIff(types: Types, t: string)
    requires Writable(types, Heading(t))
    ensures Skipped(types, ItemText(Heading(t))) <==> NamedBy(types, t).None?
  {
    hide ReadFrom, ItemText, Writable, NamedBy;
    var text := ItemText(Heading(t));
    if NamedBy(types, t).None? {
      forall acc: Settings, rest: string
        ensures ReadFrom(types, acc, text + rest) == ReadFrom(types, acc, rest)
      {
        HeadingReads(types, acc, t, rest);
      }
    } else {
      var none: Settings := map[];
      HeadingReads(types, none, t, "");
      NothingRead(types, none);
      NothingRead(types, Apply(types, none, Heading(t)));
      assert NamedBy(types, t).value in Apply(types, none, Heading(t));
      assert ReadFrom(types, none, text + "") != ReadFrom(types, none, "");
    }
  }

  lemma HeadingNames(t: string)
    requires '\n' !in t
    ensures UnsetName("# " + t + "\n") == UnsetName("# " + t)
  {
    var k := IndexOf(t, ' ');
    assert ("# " + t)[2..] == t && ("# " + t + "\n")[2..] == t + "\n";
    if k < |t| {
      assert t + "\n" == t[..k] + [' '] + (t[k + 1..] + "\n");
      assert (t + "\n")[..k] == t[..k] && (t + "\n")[k + 1..] == t[k + 1..] + "\n";
      IndexAfter(t[..k], ' ', t[k + 1..] + "\n");
      PrefixBeforeNewline(t[k + 1..]);
    } else {
      NotBefore(t);
    }
  }

  lemma PrefixBeforeNewline(p: string)
    requires '\n' !in p
    ensures UNSET <= p + "\n" <==> UNSET <= p
  {
    var q := p + "\n";
    assert |p| < |UNSET| ==> UNSET[|p|] in UNSET;
    assert '\n' !in UNSET && q[|p|] == '\n';
    assert |UNSET| <= |p| ==> q[..|UNSET|] == p[..|UNSET|];
  }

  lemma {:induction false} NotBefore(t: string)
    requires ' ' !in t
    ensures IndexOf(t + "\n", ' ') == |t| + 1
  {
    if t != [] {
      assert (t + "\n")[1..] == t[1..] + "\n";
      NotBefore(t[1..]);
    }
  }

  lemma ItemReads(types: Types, acc: Settings, i: Item, rest: string)
    requires Writable(types, i)
    ensures ReadFrom(types, acc, ItemText(i) + rest) == ReadFrom(types, Apply(types, acc, i), rest)
  {
    hide ReadFrom, ReadLine, EntryLine;
    if i.Heading? {
      HeadingReads(types, acc, i.text, rest);
    } else {
      EntryReads(types, acc, i.name, i.ty, i.val);
      OneLine(types, acc, EntryLine(i.name, i.ty, i.val), rest);
    }
  }

  /** What is read of any file that was written, item by item. */
  lemma {:induction false} FileReads(types: Types, acc: Settings, items: seq<Item>)
    requires forall i :: i in items ==> Writable(types, i)
    ensures ReadFrom(types, acc, FileText(items)) == ApplyAll(types, acc, items)
    decreases |items|
  {
    if items != [] {
      hide ItemText, Writable, Apply;
      ItemReads(types, acc, items[0], FileText(items[1..]));
      FileReads(types, Apply(types, acc, items[0]), items[1..]);
    }
  }

  predicate DistinctNames(items: seq<Item>) {
    forall i, j :: 0 <= i < j < |items| && items[i].Entry? && items[j].Entry? ==> items[i].name != items[j].name
  }

  // the one name that reading an item sets, and its value
  function Sets(types: Types, i: Item): Option<(string, Setting)> {
    match i
    case Entry(name, ty, val) => if ReadBack(ty, val).Some? then Some((name, ReadBack(ty, val).value)) else None
    case Heading(t) => if NamedBy(types, t).Some? then Some((NamedBy(types, t).value, TriSetting(NO))) else None
  }

  predicate SetsName(types: Types, i: Item, n: string) {
    Sets(types, i).Some? && Sets(types, i).value.0 == n
  }

  // what the last item to set a name sets it to
  function LastSet(types: Types, items: seq<Item>, n: string): Option<Setting> {
    if items == [] then None
    else
      var last := items[|items| - 1];
      if SetsName(types, last, n) then Some(Sets(types, last).value.1)
      else LastSet(types, items[..|items| - 1], n)
  }

  lemma {:induction false} ApplyAllLast(types: Types, acc: Settings, items: seq<Item>, n: string)
    ensures var r, last := ApplyAll(types, acc, items), LastSet(types, items, n);
      && (n in r <==> last.Some? || n in acc)
      && (n in r ==> r[n] == if last.Some? then last.value else acc[n])
    decreases |items|
  {
    hide Sets, Apply, LastSet, ApplyAll;
    NothingSet(types, acc, n);
    if items != [] {
      var init, last := items[..|items| - 1], items[|items| - 1];
      assert items == init + [last];
      ApplyAllLast(types, acc, init, n);
      ApplyEnd(types, acc, init, last);
      ApplySets(types, ApplyAll(types, acc, init), last);
      LastSetEnd(types, init, last, n);
    }
  }

  lemma NothingSet(types: Types, acc: Settings, n: string)
    ensures ApplyAll(types, acc, []) == acc && LastSet(types, [], n) == None
  {
  }

  lemma LastSetEnd(types: Types, items: seq<Item>, i: Item, n: string)
    ensures LastSet(types, items + [i], n) ==
      if SetsName(types, i, n) then Some(Sets(types, i).value.1) else LastSet(types, items, n)
  {
    hide Sets;
    assert (items + [i])[..|items + [i]| - 1] == items;
  }

  lemma ApplySets(types: Types, acc: Settings, i: Item)
    ensures Apply(types, acc, i) == var s := Sets(types, i); if s.Some? then acc[s.value.0 := s.value.1] else acc
  {
    hide ReadBack, NamedBy;
  }

  lemma {:induction false} ApplyEnd(types: Types, acc: Settings, items: seq<Item>, i: Item)
    ensures ApplyAll(types, acc, items + [i]) == Apply(types, ApplyAll(types, acc, items), i)
    decreases |items|
  {
    if items == [] {
      assert items + [i] == [i];
    } else {
      assert (items + [i])[1..] == items[1..] + [i];
      ApplyEnd(types, Apply(types, acc, items[0]), items[1..], i);
    }
  }

  lemma {:induction false} LastSetAt(types: Types, items: seq<Item>, n: string) returns (k: int)
    ensures -1 <= k < |items|
    ensures k == -1 <==> LastSet(types, items, n).None?
    ensures k >= 0 ==> SetsName(types, items[k], n) && LastSet(types, items, n) == Some(Sets(types, items[k]).value.1)
    ensures forall j :: k < j < |items| ==> !SetsName(types, items[j], n)
    decreases |items|
  {
    hide Sets;
    if items == [] {
      k := -1;
    } else if SetsName(types, items[|items| - 1], n) {
      k := |items| - 1;
    } else {
      k := LastSetAt(types, items[..|items| - 1], n);
    }
  }

  /** The file gives back exactly the symbols that were written to it, each with its value. */
  ghost predicate GivesBack(types: Types, items: seq<Item>) {
    var r := ReadFrom(types, map[], FileText(items));
    && (forall k :: 0 <= k < |items| && items[k].Entry? ==> items[k].name in r && r[items[k].name] == items[k].val)
    && (forall n :: n in r ==> exists k :: 0 <= k < |items| && items[k].Entry? && items[k].name == n)
  }

  // a symbol that a heading seems to unset is written below it, or is unset
  predicate HeadingHarmless(types: Types, items: seq<Item>, h: nat)
    requires h < |items| && items[h].Heading?
  {
    var n := NamedBy(types, items[h].text);
    n.Some? ==> exists k :: 0 <= k < |items| && items[k].Entry? && items[k].name == n.value
                         && (k > h || items[k].val == TriSetting(NO))
  }

  predicate Faithful(types: Types, items: seq<Item>) {
    && (forall k :: 0 <= k < |items| && items[k].Entry? ==> SettingOk(items[k].ty, items[k].val))
    && (forall h :: 0 <= h < |items| && items[h].Heading? ==> HeadingHarmless(types, items, h))
  }

  /** The round trip of a whole configuration holds if and only if every int and hex that is
      written is a valid number, and every heading that seems to unset a symbol is followed by
      that symbol's entry, or the symbol is unset. */
  lemma ConfigRoundTripIff(types: Types, items: seq<Item>)
    requires (forall i :: i in items ==> Writable(types, i)) && DistinctNames(items)
    ensures GivesBack(types, items) <==> Faithful(types, items)
  {
    hide ReadFrom, FileText, Writable, ReadBack, NamedBy, LastSet;
    var r := ReadFrom(types, map[], FileText(items));
    FileReads(types, map[], items);
    forall n: string
      ensures n in r <==> LastSet(types, items, n).Some?
      ensures n in r ==> r[n] == LastSet(types, items, n).value
    {
      ApplyAllLast(types, map[], items, n);
    }
    if Faithful(types, items) {
      forall k | 0 <= k < |items| && items[k].Entry?
        ensures items[k].name in r && r[items[k].name] == items[k].val
      {
        EntryGivenBack(types, items, k);
      }
      forall n | n in r
        ensures exists k :: 0 <= k < |items| && items[k].Entry? && items[k].name == n
      {
        var h := LastSetAt(types, items, n);
        assert items[h].Heading? ==> HeadingHarmless(types, items, h);
      }
    } else {
      NotGivenBack(types, items);
    }
  }

  // a valid entry is given back, whatever headings follow it
  lemma EntryGivenBack(types: Types, items: seq<Item>, k: nat)
    requires DistinctNames(items) && Faithful(types, items) && k < |items| && items[k].Entry?
    ensures LastSet(types, items, items[k].name) == Some(items[k].val)
  {
    var n := items[k].name;
    ReadBackValid(items[k].ty, items[k].val);
    var h := LastSetAt(types, items, n);
    assert SetsName(types, items[k], n);
    if items[h].Heading? {
      assert HeadingHarmless(types, items, h);
    }
  }

  lemma NotGivenBack(types: Types, items: seq<Item>)
    requires (forall i :: i in items ==> Writable(types, i)) && DistinctNames(items) && !Faithful(types, items)
    ensures
      || (exists k :: 0 <= k < |items| && items[k].Entry? && LastSet(types, items, items[k].name) != Some(items[k].val))
      || (exists n: string :: LastSet(types, items, n).Some? && forall k :: 0 <= k < |items| && items[k].Entry? ==>
          items[k].name != n)
  {
    hide ReadBack, NamedBy, LastSet, Writable, SettingOk, SetsName;
    if k :| 0 <= k < |items| && items[k].Entry? && !SettingOk(items[k].ty, items[k].val) {
      NumberNotGivenBack(types, items, k);
    } else {
      var h :| 0 <= h < |items| && items[h].Heading? && !HeadingHarmless(types, items, h);
      var n := NamedBy(types, items[h].text).value;
      var l := LastSetAt(types, items, n);
      HeadingSets(types, items, h, l);
      if k :| 0 <= k < |items| && items[k].Entry? && items[k].name == n {
        OnlyEntry(types, items, k, l);
      }
    }
  }

  // a name that a heading sets is set by it or by something behind it
  lemma HeadingSets(types: Types, items: seq<Item>, h: nat, l: int)
    requires h < |items| && items[h].Heading? && NamedBy(types, items[h].text).Some?
    requires -1 <= l && forall j :: l < j < |items| ==> !SetsName(types, items[j], NamedBy(types, items[h].text).value)
    ensures h <= l
  {
    assert SetsName(types, items[h], NamedBy(types, items[h].text).value);
  }

  // only the entry of its own name sets a name, apart from headings, which say n
  lemma OnlyEntry(types: Types, items: seq<Item>, k: nat, l: nat)
    requires DistinctNames(items) && k < |items| && items[k].Entry? && l < |items|
    requires SetsName(types, items[l], items[k].name)
    ensures l == k || (items[l].Heading? && Sets(types, items[l]).value.1 == TriSetting(NO))
  {
  }

  // no heading can make up for a number that is not valid
  lemma NumberNotGivenBack(types: Types, items: seq<Item>, k: nat)
    requires (forall i :: i in items ==> Writable(types, i)) && DistinctNames(items)
    requires k < |items| && items[k].Entry? && !SettingOk(items[k].ty, items[k].val)
    ensures LastSet(types, items, items[k].name) != Some(items[k].val)
  {
    var n := items[k].name;
    assert Writable(types, items[k]);
    var l := LastSetAt(types, items, n);
    if l >= 0 && items[l].Heading? {
      assert false;
    }
  }

  /** A heading that is mistaken: "FOO is not settled yet" unsets FOO when it is read back. */
  lemma HeadingMistaken(types: Types, acc: Settings, name: string, more: string, rest: string)
    requires NameOk(name) && name in types && (types[name] == Boolean || types[name] == Tristate)
    requires Writable(types, Heading(name + " " + UNSET + more))
    ensures ReadFrom(types, acc, ItemText(Heading(name + " " + UNSET + more)) + rest)
         == ReadFrom(types, acc[name := TriSetting(NO)], rest)
  {
    hide ReadFrom, ItemText;
    var t := name + " " + UNSET + more;
    assert t == name + [' '] + (UNSET + more) && ("# " + t)[2..] == t;
    IndexAfter(name, ' ', UNSET + more);
    assert t[..|name|] == name && t[|name| + 1..] == UNSET + more;
    HeadingReads(types, acc, t, rest);
  }
}
