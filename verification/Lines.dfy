/** The lines of the configuration file, character by character: what is written for every
    kind of symbol, and what reading a line does (package/config/confdata.c). */
module Lines {
  import opened Wrappers
  import opened Exprs
  import opened Config
  import opened Numbers

  // ---------- writing ----------

  /** A bool or tristate at n is a comment; at m and y it is an assignment of one letter. */
  lemma TristateWritten(name: string, ty: SymType)
    requires ty == Boolean || ty == Tristate
    ensures FileText([Entry(name, ty, TriSetting(NO))]) == "# " + name + " is not set\n"
    ensures FileText([Entry(name, ty, TriSetting(MOD))]) == name + "=m\n"
    ensures FileText([Entry(name, ty, TriSetting(YES))]) == name + "=y\n"
  {
    OneItem(Entry(name, ty, TriSetting(NO)));
    OneItem(Entry(name, ty, TriSetting(MOD)));
    OneItem(Entry(name, ty, TriSetting(YES)));
    hide FileText;
    LineEnds("# " + name, " is not set");
    LineEnds(name, "=m");
    LineEnds(name, "=y");
  }

  /** A number is written as it is, a string between quotes. */
  lemma StringWritten(name: string, ty: SymType, s: string)
    requires ty == Int || ty == Hex || ty == Str
    ensures ty != Str ==> FileText([Entry(name, ty, StrSetting(s))]) == name + "=" + s + "\n"
    ensures ty == Str && '"' !in s && '\\' !in s ==>
      FileText([Entry(name, ty, StrSetting(s))]) == name + "=\"" + s + "\"\n"
    ensures var text := FileText([Entry(name, ty, StrSetting(s))]);
      ty == Str ==> |text| == |name| + 4 + |s| + multiset(s)['"'] + multiset(s)['\\']
  {
    EscapeOnly(s);
    OneItem(Entry(name, ty, StrSetting(s)));
    hide Escape, FileText;
    LineEnds(name + "=\"" + s, "\"");
  }

  lemma HeadingWritten(s: string)
    ensures FileText([Heading(s)]) == "\n#\n# " + s + "\n#\n"
  {
    OneItem(Heading(s));
  }

  lemma OneItem(i: Item)
    ensures FileText([i]) == ItemText(i)
  {
    assert [i][1..] == [];
    assert ItemText(i) + "" == ItemText(i);
  }

  lemma LineEnds(a: string, b: string)
    ensures (a + b) + "\n" == a + (b + "\n")
  {
  }

  /** One item after the other. */
  lemma {:induction false} ItemsWritten(a: seq<Item>, b: seq<Item>)
    ensures FileText(a + b) == FileText(a) + FileText(b)
  {
    if a == [] {
      assert a + b == b;
    } else {
      assert (a + b)[1..] == a[1..] + b;
      ItemsWritten(a[1..], b);
    }
  }

  // ---------- reading ----------

  // what the text behind the = of a bool or tristate says
  predicate Says(p: string, c: char) {
    p != [] && p[0] == c
  }

  // a line ends with a newline, perhaps behind a carriage return, or with the file
  predicate EndOfLine(eol: string, rest: string) {
    eol == "\n" || eol == "\r\n" || (eol == "" && rest == "")
  }

  /** What an assignment does, whatever stands behind the =. For bools and tristates the first
      letter counts, m for tristates only. */
  lemma AssignmentMeans(types: Types, acc: Settings, name: string, p: string, eol: string, rest: string)
    requires NameOk(name) && name in types && '\n' !in p && EndOfLine(eol, rest)
    requires eol == "\n" && p != [] ==> p[|p| - 1] != '\r'
    requires |name| + 1 + |p| + |eol| <= LINE_MAX
    ensures var ty := types[name]; var r := ReadFrom(types, acc, name + "=" + p + eol + rest);
      && (ty == Boolean || ty == Tristate ==>
          && (Says(p, 'y') ==> r == ReadFrom(types, acc[name := TriSetting(YES)], rest))
          && (Says(p, 'n') ==> r == ReadFrom(types, acc[name := TriSetting(NO)], rest))
          && (Says(p, 'm') && ty == Tristate ==> r == ReadFrom(types, acc[name := TriSetting(MOD)], rest))
          && (!Says(p, 'y') && !Says(p, 'n') && !(Says(p, 'm') && ty == Tristate) ==> r == ReadFrom(types, acc, rest)))
      && (ty == Int || ty == Hex ==>
          r == ReadFrom(types, if Numeral(ty, p) then acc[name := StrSetting(p)] else acc, rest))
      && (ty == Str && !Says(p, '"') ==> r == ReadFrom(types, acc, rest))
  {
    var line := name + "=" + p;
    TailReads(types, acc, name, p + eol);
    Stripped(p, eol);
    NameHasNoNewline(name);
    if types[name] == Int || types[name] == Hex {
      NumeralIff(types[name], p);
    }
    hide ReadFrom, ReadLine, StringValid, StripEol, NameOk;
    assert line + eol == name + "=" + (p + eol);
    OnePiece(types, acc, line, eol, rest);
  }

  lemma TailReads(types: Types, acc: Settings, name: string, tail: string)
    requires NameOk(name) && name in types
    ensures var val := SetSymVal(types[name], StripEol(tail));
      ReadLine(types, acc, name + "=" + tail) == if val.None? then acc else acc[name := val.value]
  {
    hide SetSymVal, StripEol, IndexOf, ReadUnset;
    var line := name + "=" + tail;
    assert line == name + ['='] + tail;
    IndexAfter(name, '=', tail);
    assert line[..|name|] == name && line[|name| + 1..] == tail;
  }

  lemma Stripped(p: string, eol: string)
    requires '\n' !in p && (eol == "\n" || eol == "\r\n" || eol == "")
    requires eol == "\n" && p != [] ==> p[|p| - 1] != '\r'
    ensures StripEol(p + eol) == p
  {
    if eol == "" {
      assert p + eol == p;
    } else {
      var q := if eol == "\n" then p else p + ['\r'];
      assert p + eol == q + ['\n'] + "";
      IndexAfter(q, '\n', "");
    }
  }

  lemma OnePiece(types: Types, acc: Settings, line: string, eol: string, rest: string)
    requires '\n' !in line && EndOfLine(eol, rest) && 0 < |line + eol| <= LINE_MAX
    ensures ReadFrom(types, acc, line + eol + rest) == ReadFrom(types, ReadLine(types, acc, line + eol), rest)
  {
    var text := line + eol + rest;
    FirstPiece(line, eol, rest);
    assert text[..|line + eol|] == line + eol && text[|line + eol|..] == rest;
    hide ReadLine, LineLength;
  }

  lemma FirstPiece(line: string, eol: string, rest: string)
    requires '\n' !in line && EndOfLine(eol, rest) && 0 < |line + eol| <= LINE_MAX
    ensures LineLength(line + eol + rest) == |line + eol|
  {
    var text := line + eol + rest;
    if eol == "" {
      assert text == line;
    } else {
      var q := if eol == "\n" then line else line + ['\r'];
      assert text == q + ['\n'] + rest;
      IndexAfter(q, '\n', rest);
    }
  }

  /** An assignment to a name that no symbol has does nothing, nor does a line that begins with
      anything but # and the letters from A to Z. */
  lemma OtherwiseSkipped(types: Types, acc: Settings, line: string, eol: string, rest: string)
    requires '\n' !in line && EndOfLine(eol, rest) && 0 < |line + eol| <= LINE_MAX
    requires line != [] ==> line[0] != '#'
    requires line != [] && 'A' <= line[0] <= 'Z' ==> forall name :: name in types ==> !(name + "=" <= line)
    ensures ReadFrom(types, acc, line + eol + rest) == ReadFrom(types, acc, rest)
  {
    OnePiece(types, acc, line, eol, rest);
    hide ReadFrom, IndexOf;
    var text := line + eol;
    var k := IndexOf(text, '=');
    if k < |text| {
      NameInLine(line, eol, k);
    }
  }

  lemma NameInLine(line: string, eol: string, k: nat)
    requires eol == "\n" || eol == "\r\n" || eol == ""
    requires k < |line + eol| && (line + eol)[k] == '='
    ensures k < |line| && (line + eol)[..k] == line[..k] && (line + eol)[..k] + "=" <= line
  {
    assert k < |line| ==> line[..k] + "=" == line[..k + 1];
  }

  /** A comment unsets the bool or tristate symbol with whose name it begins, if "is not set"
      follows. */
  lemma CommentMeans(types: Types, acc: Settings, t: string, rest: string, name: string)
    requires '\n' !in t && |t| + 3 <= LINE_MAX && name in types && ' ' !in name && name + " is not set" <= t
    ensures var unset := types[name] == Boolean || types[name] == Tristate;
      ReadFrom(types, acc, "# " + t + "\n" + rest)
      == ReadFrom(types, if unset then acc[name := TriSetting(NO)] else acc, rest)
  {
    var line := "# " + t;
    OnePiece(types, acc, line, "\n", rest);
    FirstWordIff(t + "\n", name);
    assert name + " is not set" <= t + "\n";
    assert line + "\n" == "# " + (t + "\n");
    hide ReadFrom, UnsetName;
  }

  /** Any other comment does nothing. */
  lemma CommentSkipped(types: Types, acc: Settings, t: string, rest: string)
    requires '\n' !in t && |t| + 2 <= LINE_MAX
    requires forall name :: name in types && ' ' !in name ==> !(" " + name + " is not set" <= t)
    ensures ReadFrom(types, acc, "#" + t + "\n" + rest) == ReadFrom(types, acc, rest)
  {
    var line := "#" + t;
    OnePiece(types, acc, line, "\n", rest);
    var name := UnsetName(line + "\n");
    if name.Some? {
      UnsetNameIn(t, name.value);
    }
    hide ReadFrom, UnsetName;
  }

  lemma UnsetNameIn(t: string, name: string)
    requires UnsetName("#" + t + "\n") == Some(name)
    ensures ' ' !in name && " " + name + " is not set" <= t
  {
    var u := name + " is not set";
    StartsWithBlank(t);
    var more := t[1..] + "\n";
    hide UnsetName;
    FirstWordIff(more, name);
    assert u[|u| - 1] == 't';
    BeforeNewline(t[1..], u);
    assert " " + name + " is not set" == " " + u;
    assert t == " " + t[1..];
  }

  lemma StartsWithBlank(t: string)
    requires UnsetName("#" + t + "\n").Some?
    ensures t != [] && t[0] == ' ' && "#" + t + "\n" == "# " + (t[1..] + "\n")
  {
    var all := "#" + t + "\n";
    assert |all| >= 2 && all[1] == ' ';
    hide UnsetName;
    assert t == " " + t[1..];
  }

  lemma BeforeNewline(t: string, u: string)
    requires u <= t + "\n" && u != [] && u[|u| - 1] != '\n'
    ensures u <= t
  {
    assert |u| <= |t| + 1 && u == (t + "\n")[..|u|];
  }

  /** What does not fit into the buffer is read in pieces. */
  lemma LongLine(types: Types, acc: Settings, piece: string, rest: string)
    requires '\n' !in piece && |piece| == LINE_MAX
    ensures ReadFrom(types, acc, piece + rest) == ReadFrom(types, ReadFrom(types, acc, piece), rest)
  {
    var text := piece + rest;
    var k := IndexOf(text, '\n');
    assert forall i :: 0 <= i < |piece| ==> text[i] == piece[i];
    assert k < |text| ==> k >= LINE_MAX;
    assert LineLength(text) == LINE_MAX;
    assert text[..LINE_MAX] == piece && text[LINE_MAX..] == rest;
    assert LineLength(piece) == LINE_MAX;
    assert piece[..LINE_MAX] == piece && piece[LINE_MAX..] == [];
    hide LineLength, ReadLine, IndexOf;
    var next := ReadLine(types, acc, piece);
    assert ReadFrom(types, next, []) == next;
  }

  lemma NameHasNoNewline(name: string)
    requires NameOk(name)
    ensures '\n' !in name
  {
  }

  // ---------- valid numbers ----------

  function Hexadecimal(s: string): bool {
    s != [] && forall c :: c in s ==> '0' <= c <= '9' || 'a' <= c <= 'f' || 'A' <= c <= 'F'
  }

  /** An int is the decimal numeral of a natural number, perhaps behind a minus; a hex is any
      hexadecimal digits, perhaps behind "0x". */
  ghost predicate Numeral(ty: SymType, s: string) {
    match ty
    case Int => exists n: nat :: s == Digits(n, 10) || s == "-" + Digits(n, 10)
    case Hex => Hexadecimal(s) || (|s| >= 2 && (s[..2] == "0x" || s[..2] == "0X") && Hexadecimal(s[2..]))
    case _ => false
  }

  // without a sign
  predicate PlainInt(t: string) {
    t != [] && (forall c :: c in t ==> IsDigit(c)) && (t[0] == '0' ==> |t| == 1)
  }

  lemma {:induction false} DigitsArePlain(n: nat)
    ensures PlainInt(Digits(n, 10)) && (n > 0 ==> Digits(n, 10)[0] != '0')
  {
    if n >= 10 {
      DigitsArePlain(n / 10);
    }
  }

  lemma {:induction false} PlainIsDigits(t: string) returns (n: nat)
    requires PlainInt(t)
    ensures Digits(n, 10) == t && (n == 0 <==> t == "0")
  {
    var last := t[|t| - 1];
    assert last in t;
    var d := last as int - '0' as int;
    if |t| == 1 {
      n := d;
    } else {
      var init := t[..|t| - 1];
      assert t == init + [last] && init[0] == t[0];
      var m := PlainIsDigits(init);
      n := 10 * m + d;
      assert n / 10 == m && n % 10 == d;
    }
  }

  lemma HexDigits(t: string)
    ensures Hexadecimal(t) <==> t != [] && forall c :: c in t ==> IsHexDigit(c)
  {
    if Hexadecimal(t) {
      forall c | c in t
        ensures IsHexDigit(c)
      {
      }
    }
    if t != [] && forall c :: c in t ==> IsHexDigit(c) {
      forall c | c in t
        ensures '0' <= c <= '9' || 'a' <= c <= 'f' || 'A' <= c <= 'F'
      {
        assert IsHexDigit(c);
      }
    }
  }

  lemma NumeralIff(ty: SymType, s: string)
    requires ty == Int || ty == Hex
    ensures StringValid(ty, s) <==> Numeral(ty, s)
  {
    HexDigits(s);
    if ty == Int {
      IntIff(s);
    } else if |s| >= 2 && s[0] == '0' && (s[1] == 'x' || s[1] == 'X') {
      assert s[..2] == "0x" || s[..2] == "0X";
      assert s[1] in s && !Hexadecimal(s);
      HexDigits(s[2..]);
    } else if |s| >= 2 {
      assert s[..2][0] == s[0] && s[..2][1] == s[1];
    }
  }

  lemma IntIff(s: string)
    ensures StringValid(Int, s) <==> Numeral(Int, s)
  {
    var t := if s != [] && s[0] == '-' then s[1..] else s;
    assert StringValid(Int, s) <==> PlainInt(t);
    if PlainInt(t) {
      var n := PlainIsDigits(t);
      assert s == Digits(n, 10) || s == "-" + Digits(n, 10);
    }
    if Numeral(Int, s) {
      var n: nat :| s == Digits(n, 10) || s == "-" + Digits(n, 10);
      DigitsArePlain(n);
      assert Digits(n, 10)[0] in Digits(n, 10);
      assert s == Digits(n, 10) ==> t == s;
      assert s == "-" + Digits(n, 10) ==> t == Digits(n, 10);
    }
  }

  // ---------- headings ----------

  /** The symbol that a heading unsets: the one whose name it begins with, followed by a space
      and "is not set". */
  lemma NamedIff(types: Types, t: string, name: string)
    ensures NamedBy(types, t) == Some(name) <==>
      && name in types && (types[name] == Boolean || types[name] == Tristate)
      && ' ' !in name && name + " is not set" <= t
  {
    FirstWordIff(t, name);
    hide UnsetName;
  }

  lemma FirstWordIff(t: string, name: string)
    ensures UnsetName("# " + t) == Some(name) <==> ' ' !in name && name + " is not set" <= t
  {
    assert ("# " + t)[2..] == t;
    assert " is not set" == [' '] + UNSET;
    var k := IndexOf(t, ' ');
    hide IndexOf;
    if ' ' !in name && name + " is not set" <= t {
      NameFirst(t, name, [' '] + UNSET);
      IndexAfter(name, ' ', t[|name| + 1..]);
    }
    if k < |t| && UNSET <= t[k + 1..] && t[..k] == name {
      NameBefore(t, k, UNSET);
    }
  }

  lemma NameFirst(t: string, name: string, more: string)
    requires name + more <= t && |more| > 0
    ensures |name| < |t| && t[..|name|] == name && t == name + [more[0]] + t[|name| + 1..]
    ensures more[1..] <= t[|name| + 1..]
  {
    assert t == (name + more) + t[|name + more|..];
    assert name + more == name + [more[0]] + more[1..];
    assert t[|name| + 1..] == more[1..] + t[|name + more|..];
  }

  lemma NameBefore(t: string, k: nat, unset: string)
    requires k < |t| && t[k] == ' ' && unset <= t[k + 1..]
    ensures t[..k] + ([' '] + unset) <= t
  {
    var u := t[..k] + ([' '] + unset);
    assert t[k + 1..][..|unset|] == unset;
    assert forall i :: 0 <= i < |u| ==> u[i] == t[i];
  }
}
