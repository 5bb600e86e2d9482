/** The text form of a document, without YAML (src/storage/orm/document.cpp): one line per field,
  key and value escaped. */
module Documents {

  type Fields = map<string, string>

  // ---------------------------------------------------------------- escaping

  function EscapedChar(c: char): string {
    if c == '\\' then "\\\\" else if c == '\n' then "\\n" else if c == '=' then "\\=" else [c]
  }

  function Escaped(s: string): string {
    if s == "" then "" else EscapedChar(s[0]) + Escaped(s[1..])
  }

  function UnescapedChar(c: char): char {
    if c == 'n' then '\n' else c
  }

  /** A backslash at the very end stands for itself. */
  function Unescaped(s: string): string {
    if s == "" then ""
    else if s[0] == '\\' && 1 < |s| then [UnescapedChar(s[1])] + Unescaped(s[2..])
    else [s[0]] + Unescaped(s[1..])
  }

  lemma {:induction false} UnescapeEscaped(s: string)
    ensures Unescaped(Escaped(s)) == s
  {
    if s != "" {
      UnescapeEscaped(s[1..]);
      UnescapeChar(s[0], Escaped(s[1..]));
    }
  }

  lemma UnescapeChar(c: char, rest: string)
    ensures Unescaped(EscapedChar(c) + rest) == [c] + Unescaped(rest)
  {
    var e := EscapedChar(c);
    assert (e + rest)[|e|..] == rest;
  }

  lemma {:induction false} EscapedSnoc(s: string, c: char)
    ensures Escaped(s + [c]) == Escaped(s) + EscapedChar(c)
  {
    if s == "" {
      assert s + [c] == [c];
      assert Escaped([c]) == EscapedChar(c) + Escaped("");
    } else {
      assert (s + [c])[1..] == s[1..] + [c];
      EscapedSnoc(s[1..], c);
    }
  }

  lemma {:induction false} EscapedConcat(a: string, b: string)
    ensures Escaped(a + b) == Escaped(a) + Escaped(b)
  {
    if a == "" {
      assert a + b == b;
    } else {
      assert (a + b)[1..] == a[1..] + b;
      EscapedConcat(a[1..], b);
    }
  }

  predicate Plain(c: char) {
    c != '\\' && c != '\n' && c != '='
  }

  /** Backslashes, newlines and equals signs are escaped by two characters each, and nothing else is:
    what lies between them is its own escape. */
  lemma {:induction false} PlainIsItsEscape(s: string)
    ensures (forall i :: 0 <= i < |s| ==> Plain(s[i])) <==> Escaped(s) == s
    ensures Escaped("\\") == "\\\\" && Escaped("\n") == "\\n" && Escaped("=") == "\\="
    ensures |s| <= |Escaped(s)|
  {
    assert Escaped("\\") == EscapedChar('\\') + Escaped("");
    assert Escaped("\n") == EscapedChar('\n') + Escaped("");
    assert Escaped("=") == EscapedChar('=') + Escaped("");
    if s != "" {
      PlainIsItsEscape(s[1..]);
      assert s == [s[0]] + s[1..];
    }
  }

  method Escape(s: string) returns (r: string)
    ensures r == Escaped(s)
  {
    r := "";
    for i := 0 to |s|
      invariant r == Escaped(s[..i])
    {
      EscapedSnoc(s[..i], s[i]);
      assert s[..i + 1] == s[..i] + [s[i]];
      if s[i] == '\\' {
        r := r + "\\\\";
      } else if s[i] == '\n' {
        r := r + "\\n";
      } else if s[i] == '=' {
        r := r + "\\=";
      } else {
        r := r + [s[i]];
      }
    }
    assert s[..|s|] == s;
  }

  lemma UnescapedStep(s: string)
    ensures s == "" ==> Unescaped(s) == ""
    ensures 1 < |s| && s[0] == '\\' ==> Unescaped(s) == [UnescapedChar(s[1])] + Unescaped(s[2..])
    ensures s != "" && (s[0] != '\\' || |s| == 1) ==> Unescaped(s) == [s[0]] + Unescaped(s[1..])
  {}

  /** What unescaping makes of any text: the character behind a backslash stands for itself, but n for a
    newline; a lone backslash at the end and all else stays. */
  lemma UnescapedIs(c: char, rest: string)
    ensures Unescaped("") == "" && Unescaped("\\") == "\\"
    ensures Unescaped(['\\', c] + rest) == [if c == 'n' then '\n' else c] + Unescaped(rest)
    ensures c != '\\' ==> Unescaped([c] + rest) == [c] + Unescaped(rest)
  {
    assert (['\\', c] + rest)[2..] == rest;
    assert ([c] + rest)[1..] == rest;
    assert Unescaped("\\") == ['\\'] + Unescaped("\\"[1..]);
  }

  method Unescape(s: string) returns (r: string)
    ensures r == Unescaped(s)
  {
    hide Unescaped;
    r := "";
    var i := 0;
    UnescapedStep("");
    while i < |s|
      invariant i <= |s| && r + Unescaped(s[i..]) == Unescaped(s)
    {
      UnescapedStep(s[i..]);
      if s[i] == '\\' && i + 1 < |s| {
        assert s[i..][2..] == s[i + 2..];
        if s[i + 1] == 'n' {
          r := r + "\n";
        } else if s[i + 1] == '=' {
          r := r + "=";
        } else if s[i + 1] == '\\' {
          r := r + "\\";
        } else {
          r := r + [s[i + 1]];
        }
        i := i + 1;
      } else {
        assert s[i..][1..] == s[i + 1..];
        r := r + [s[i]];
      }
      i := i + 1;
    }
    assert s[i..] == "";
  }

  // ---------------------------------------------------------------- the order of the keys

  /** The order in which the map holds its keys. */
  predicate AtMost(a: string, b: string) {
    a == "" || (b != "" && (a[0] < b[0] || (a[0] == b[0] && AtMost(a[1..], b[1..]))))
  }

  /** The order of std::string: a prefix comes first, otherwise the first difference decides. */
  lemma {:induction false} AtMostIff(a: string, b: string)
    ensures AtMost(a, b) <==>
              || (|a| <= |b| && a == b[..|a|])
              || exists i :: 0 <= i < |a| && i < |b| && a[..i] == b[..i] && a[i] < b[i]
  {
    if a != "" && b != "" {
      AtMostIff(a[1..], b[1..]);
      if a[0] == b[0] {
        SamePrefix(a, b);
        forall i | 0 <= i < |a[1..]| && i < |b[1..]| && a[1..][..i] == b[1..][..i] && a[1..][i] < b[1..][i]
          ensures 0 <= i + 1 < |a| && i + 1 < |b| && a[..i + 1] == b[..i + 1] && a[i + 1] < b[i + 1]
        {
          assert a[..i + 1] == [a[0]] + a[1..][..i] && b[..i + 1] == [b[0]] + b[1..][..i];
        }
        forall i | 0 < i < |a| && i < |b| && a[..i] == b[..i] && a[i] < b[i]
          ensures 0 <= i - 1 < |a[1..]| && i - 1 < |b[1..]| && a[1..][..i - 1] == b[1..][..i - 1] && a[1..][i - 1] < b[1..][i - 1]
        {
          assert a[1..][..i - 1] == a[..i][1..] && b[1..][..i - 1] == b[..i][1..];
        }
      } else if a[0] < b[0] {
        assert a[..0] == b[..0];
      }
    }
  }

  lemma SamePrefix(a: string, b: string)
    requires a != "" && b != "" && a[0] == b[0]
    ensures |a| <= |b| && a == b[..|a|] <==> |a[1..]| <= |b[1..]| && a[1..] == b[1..][..|a[1..]|]
  {
    if |a| <= |b| {
      assert a == [a[0]] + a[1..] && b[..|a|] == [b[0]] + b[1..][..|a| - 1];
      assert a[1..] == b[1..][..|a| - 1] ==> a == b[..|a|];
      assert a == b[..|a|] ==> a[1..] == b[..|a|][1..] == b[1..][..|a| - 1];
    }
  }

  lemma {:induction false} AtMostTotal(a: string, b: string)
    ensures AtMost(a, b) || AtMost(b, a)
    ensures AtMost(a, b) && AtMost(b, a) ==> a == b
  {
    if a != "" && b != "" {
      AtMostTotal(a[1..], b[1..]);
      assert a == [a[0]] + a[1..] && b == [b[0]] + b[1..];
    }
  }

  lemma {:induction false} AtMostTransitive(a: string, b: string, c: string)
    requires AtMost(a, b) && AtMost(b, c)
    ensures AtMost(a, c)
  {
    if a != "" && a[0] == b[0] == c[0] { AtMostTransitive(a[1..], b[1..], c[1..]); }
  }

  ghost predicate First(keys: set<string>, k: string) {
    k in keys && forall other :: other in keys ==> AtMost(k, other)
  }

  lemma {:induction false} FirstExists(keys: set<string>)
    requires keys != {}
    ensures exists k :: First(keys, k)
    decreases |keys|
  {
    var k :| k in keys;
    var others := keys - {k};
    AtMostTotal(k, k);
    if others == {} {
      assert keys == {k};
      assert First(keys, k);
    } else {
      FirstExists(others);
      var least :| First(others, least);
      AtMostTotal(k, least);
      var first := if AtMost(k, least) then k else least;
      forall other | other in keys ensures AtMost(first, other) {
        if other != k && first == k { AtMostTransitive(k, least, other); }
      }
      assert First(keys, first);
    }
  }

  /** The keys, each once, in the order of the map. */
  ghost predicate InOrder(keys: set<string>, order: seq<string>) {
    && (forall k :: k in keys <==> k in order)
    && (forall i, j :: 0 <= i < j < |order| ==> order[i] != order[j] && AtMost(order[i], order[j]))
  }

  /** There is one such order, so that equal documents print alike. */
  lemma {:induction false} OneOrder(keys: set<string>, a: seq<string>, b: seq<string>)
    requires InOrder(keys, a) && InOrder(keys, b)
    ensures a == b
    decreases |a|
  {
    EmptyOrder(keys, a);
    EmptyOrder(keys, b);
    if a != [] {
      assert a[0] in keys && b[0] in keys;
      var i :| 0 <= i < |b| && b[i] == a[0];
      var j :| 0 <= j < |a| && a[j] == b[0];
      AtMostTotal(a[0], b[0]);
      AtMostTotal(a[0], a[0]);
      assert a[0] == b[0];
      TailInOrder(keys, a);
      TailInOrder(keys, b);
      OneOrder(keys - {a[0]}, a[1..], b[1..]);
      assert a == [a[0]] + a[1..] && b == [b[0]] + b[1..];
    }
  }

  lemma EmptyOrder(keys: set<string>, a: seq<string>)
    requires InOrder(keys, a)
    ensures a == [] <==> keys == {}
  {
    if a != [] { assert a[0] in keys; }
  }

  lemma TailInOrder(keys: set<string>, a: seq<string>)
    requires InOrder(keys, a) && a != []
    ensures InOrder(keys - {a[0]}, a[1..])
  {
    hide AtMost;
    forall k ensures k in keys - {a[0]} <==> k in a[1..] {
      if k in keys && k != a[0] {
        var i :| 0 <= i < |a| && a[i] == k;
        assert a[1..][i - 1] == k;
      }
    }
  }

  // ---------------------------------------------------------------- printing and scanning

  function Line(k: string, v: string): string {
    Escaped(k) + "=" + Escaped(v) + "\n"
  }

  /** A field of plain characters is written as it is. */
  lemma PlainLine(k: string, v: string)
    requires (forall i :: 0 <= i < |k| ==> Plain(k[i])) && (forall i :: 0 <= i < |v| ==> Plain(v[i]))
    ensures Line(k, v) == k + "=" + v + "\n"
  {
    PlainIsItsEscape(k);
    PlainIsItsEscape(v);
  }

  /** The lines of some keys, one after the other. */
  function Written(fields: Fields, order: seq<string>): string
    requires forall k :: k in order ==> k in fields
  {
    if order == [] then "" else Line(order[0], fields[order[0]]) + Written(fields, order[1..])
  }

  /** Where the scanner of from_string is: the raw key of the line if it has got past the first
    separator, and the raw text since. */
  datatype Scanner = Scanner(key: string, cur: string, inKey: bool, fields: Fields)

  function LineStart(fields: Fields): Scanner {
    Scanner("", "", true, fields)
  }

  function EndLine(s: Scanner): Scanner {
    LineStart(if !s.inKey && s.key != "" then s.fields[Unescaped(s.key) := Unescaped(s.cur)] else s.fields)
  }

  /** Scanning what is left of a text; its end is read as the end of a line. */
  function Scan(text: string, s: Scanner): Fields
    decreases |text|
  {
    if text == "" then EndLine(s).fields
    else if text[0] == '\n' then Scan(text[1..], EndLine(s))
    else if text[0] == '=' && s.inKey then Scan(text[1..], Scanner(s.cur, "", false, s.fields))
    else if text[0] == '\\' && 1 < |text| then Scan(text[2..], s.(cur := s.cur + text[..2]))
    else Scan(text[1..], s.(cur := s.cur + text[..1]))
  }

  /** What from_string makes of a text. */
  function Parsed(text: string): Fields {
    Scan(text, LineStart(map[]))
  }

  /** The scanner takes an escaped string whole, in key and value alike: nothing in it ends the
    line or the key, and no escape pair is split. */
  lemma {:induction false} ScanEscaped(s: string, tail: string, at: Scanner)
    ensures Scan(Escaped(s) + tail, at) == Scan(tail, at.(cur := at.cur + Escaped(s)))
    decreases |s|
  {
    hide Scan, EscapedChar;
    if s == "" {
      assert Escaped(s) + tail == tail && at.cur + Escaped(s) == at.cur;
    } else {
      var e, rest := EscapedChar(s[0]), Escaped(s[1..]);
      ScanChar(s[0], rest + tail, at);
      ScanEscaped(s[1..], tail, at.(cur := at.cur + e));
      Associative(e, rest, tail);
      Associative(at.cur, e, rest);
    }
  }

  lemma Associative(a: string, b: string, c: string)
    ensures (a + b) + c == a + (b + c)
  {}

  lemma ScanChar(c: char, text: string, at: Scanner)
    ensures Scan(EscapedChar(c) + text, at) == Scan(text, at.(cur := at.cur + EscapedChar(c)))
  {
    var e := EscapedChar(c);
    assert (e + text)[|e|..] == text && (e + text)[..|e|] == e;
  }

  /** One printed line puts back its field, unless the key is empty. */
  lemma ScanLine(k: string, v: string, tail: string, fields: Fields)
    ensures Scan(Line(k, v) + tail, LineStart(fields)) ==
            Scan(tail, LineStart(if k == "" then fields else fields[k := v]))
  {
    hide Scan, Escaped, Unescaped;
    var afterValue := "\n" + tail;
    var afterKey := "=" + (Escaped(v) + afterValue);
    assert Line(k, v) + tail == Escaped(k) + afterKey;
    ScanEscaped(k, afterKey, LineStart(fields));
    assert "" + Escaped(k) == Escaped(k);
    ScanSeparator(Escaped(v) + afterValue, Escaped(k), fields);
    ScanEscaped(v, afterValue, Scanner(Escaped(k), "", false, fields));
    assert "" + Escaped(v) == Escaped(v);
    ScanNewline(tail, Scanner(Escaped(k), Escaped(v), false, fields));
    EscapedEmpty(k);
    UnescapeEscaped(k);
    UnescapeEscaped(v);
  }

  lemma ScanSeparator(text: string, key: string, fields: Fields)
    ensures Scan("=" + text, Scanner("", key, true, fields)) == Scan(text, Scanner(key, "", false, fields))
  {
    assert ("=" + text)[1..] == text;
  }

  lemma ScanNewline(text: string, at: Scanner)
    ensures Scan("\n" + text, at) == Scan(text, EndLine(at))
  {
    assert ("\n" + text)[1..] == text;
  }

  lemma EscapedEmpty(s: string)
    ensures Escaped(s) == "" <==> s == ""
  {}

  lemma ScanNothing(fields: Fields)
    ensures Scan("", LineStart(fields)) == fields
  {}

  lemma {:induction false} ScanWritten(fields: Fields, order: seq<string>, before: Fields)
    requires forall k :: k in order ==> k in fields
    ensures Scan(Written(fields, order), LineStart(before)) ==
            before + map k | k in order && k != "" :: fields[k]
    decreases |order|
  {
    hide Scan, Line;
    if order == [] {
      ScanNothing(before);
    } else {
      var k := order[0];
      var v, tail := fields[k], Written(fields, order[1..]);
      ScanLine(k, v, tail, before);
      ScanWritten(fields, order[1..], if k == "" then before else before[k := v]);
    }
  }

  /** The scanner takes text without backslashes and newlines as it is, up to the end of the key. */
  lemma {:induction false} ScanRaw(s: string, tail: string, at: Scanner)
    requires forall i :: 0 <= i < |s| ==> s[i] != '\\' && s[i] != '\n' && (at.inKey ==> s[i] != '=')
    ensures Scan(s + tail, at) == Scan(tail, at.(cur := at.cur + s))
    decreases |s|
  {
    if s == "" {
      assert s + tail == tail && at.cur + s == at.cur;
    } else {
      assert (s + tail)[1..] == s[1..] + tail && (s + tail)[..1] == [s[0]];
      ScanRaw(s[1..], tail, at.(cur := at.cur + [s[0]]));
      assert at.cur + [s[0]] + s[1..] == at.cur + s;
    }
  }

  lemma {:induction false} UnescapedRaw(s: string)
    requires forall i :: 0 <= i < |s| ==> s[i] != '\\'
    ensures Unescaped(s) == s
  {
    if s != "" { UnescapedRaw(s[1..]); }
  }

  /** A line as somebody might write it: it sets the field before its first equals sign to what is
    behind it, further equals signs included. */
  lemma RawLine(k: string, v: string, tail: string, fields: Fields)
    requires k != "" && forall i :: 0 <= i < |k| ==> Plain(k[i])
    requires forall i :: 0 <= i < |v| ==> v[i] != '\\' && v[i] != '\n'
    ensures Scan(k + "=" + v + "\n" + tail, LineStart(fields)) == Scan(tail, LineStart(fields[k := v]))
    ensures Scan(k + "=" + v, LineStart(fields)) == fields[k := v]
  {
    hide Scan, Unescaped;
    UnescapedRaw(k);
    UnescapedRaw(v);
    RawKey(k, v + ("\n" + tail), fields);
    assert k + "=" + v + "\n" + tail == k + ("=" + (v + ("\n" + tail)));
    ScanRaw(v, "\n" + tail, Scanner(k, "", false, fields));
    ScanNewline(tail, Scanner(k, "" + v, false, fields));
    RawKey(k, v + "", fields);
    assert k + "=" + v == k + ("=" + (v + "")) && "" + v == v;
    ScanRaw(v, "", Scanner(k, "", false, fields));
    ScanEnd(Scanner(k, v, false, fields));
  }

  lemma RawKey(k: string, rest: string, fields: Fields)
    requires forall i :: 0 <= i < |k| ==> Plain(k[i])
    ensures Scan(k + ("=" + rest), LineStart(fields)) == Scan(rest, Scanner(k, "", false, fields))
  {
    hide Scan;
    ScanRaw(k, "=" + rest, LineStart(fields));
    assert "" + k == k;
    ScanSeparator(rest, k, fields);
  }

  lemma ScanEnd(at: Scanner)
    ensures Scan("", at) == EndLine(at).fields
  {}

  /** A line without an equals sign, or with nothing before it, sets nothing. */
  lemma IdleLine(s: string, v: string, tail: string, fields: Fields)
    requires forall i :: 0 <= i < |s| ==> Plain(s[i])
    requires forall i :: 0 <= i < |v| ==> v[i] != '\\' && v[i] != '\n'
    ensures Scan(s + "\n" + tail, LineStart(fields)) == Scan(tail, LineStart(fields))
    ensures Scan("=" + v + "\n" + tail, LineStart(fields)) == Scan(tail, LineStart(fields))
  {
    hide Scan;
    assert s + "\n" + tail == s + ("\n" + tail);
    ScanRaw(s, "\n" + tail, LineStart(fields));
    ScanNewline(tail, LineStart(fields).(cur := "" + s));
    assert "=" + v + "\n" + tail == "" + ("=" + (v + ("\n" + tail)));
    RawKey("", v + ("\n" + tail), fields);
    ScanRaw(v, "\n" + tail, Scanner("", "", false, fields));
    ScanNewline(tail, Scanner("", "" + v, false, fields));
  }

  /** Parsing what was printed gives back every field but one with an empty key, in whatever order
    the fields were printed. */
  lemma ParsePrinted(fields: Fields, order: seq<string>)
    requires forall k :: k in fields <==> k in order
    ensures Parsed(Written(fields, order)) == fields - {""}
  {
    ScanWritten(fields, order, map[]);
  }

  /** Printing and parsing is the identity exactly on the documents without an empty key. */
  lemma RoundTripIff(fields: Fields, order: seq<string>)
    requires forall k :: k in fields <==> k in order
    ensures Parsed(Written(fields, order)) == fields <==> "" !in fields
  {
    ParsePrinted(fields, order);
    assert "" !in fields - {""};
    assert "" !in fields ==> fields - {""} == fields;
  }

  /** No text parses to a document with an empty key. */
  lemma {:induction false} NoEmptyKey(text: string, s: Scanner)
    requires "" !in s.fields
    ensures "" !in Scan(text, s)
    decreases |text|
  {
    assert s.key != "" ==> Unescaped(s.key) != "";
    if text != "" {
      if text[0] == '\n' {
        NoEmptyKey(text[1..], EndLine(s));
      } else if text[0] == '=' && s.inKey {
        NoEmptyKey(text[1..], Scanner(s.cur, "", false, s.fields));
      } else if text[0] == '\\' && 1 < |text| {
        NoEmptyKey(text[2..], s.(cur := s.cur + text[..2]));
      } else {
        NoEmptyKey(text[1..], s.(cur := s.cur + text[..1]));
      }
    }
  }

  /** Whatever a text holds, what it parses to survives being printed and parsed again. */
  lemma ParsedIsStable(text: string, order: seq<string>)
    requires forall k :: k in Parsed(text) <==> k in order
    ensures Parsed(Written(Parsed(text), order)) == Parsed(text)
  {
    NoEmptyKey(text, LineStart(map[]));
    RoundTripIff(Parsed(text), order);
  }

  // ---------------------------------------------------------------- the document object

  lemma {:induction false} WrittenSnoc(fields: Fields, order: seq<string>, k: string)
    requires k in fields && forall o :: o in order ==> o in fields
    ensures forall o :: o in order + [k] ==> o in fields
    ensures Written(fields, order + [k]) == Written(fields, order) + Line(k, fields[k])
  {
    if order == [] {
      assert order + [k] == [k];
      assert Written(fields, [k]) == Line(k, fields[k]) + Written(fields, []);
    } else {
      assert (order + [k])[1..] == order[1..] + [k];
      WrittenSnoc(fields, order[1..], k);
    }
  }

  /** The scanner at a position of the text. */
  lemma ScanStep(text: string, i: nat, s: Scanner)
    requires i <= |text|
    ensures i == |text| ==> Scan(text[i..], s) == EndLine(s).fields
    ensures i < |text| ==>
              Scan(text[i..], s) ==
                if text[i] == '\n' then Scan(text[i + 1..], EndLine(s))
                else if text[i] == '=' && s.inKey then Scan(text[i + 1..], Scanner(s.cur, "", false, s.fields))
                else if text[i] == '\\' && i + 1 < |text| then
                  Scan(text[i + 2..], s.(cur := s.cur + ['\\'] + [text[i + 1]]))
                else Scan(text[i + 1..], s.(cur := s.cur + [text[i]]))
  {
    if i < |text| {
      var rest := text[i..];
      assert rest[1..] == text[i + 1..] && rest[..1] == [text[i]];
      if i + 1 < |text| {
        assert rest[2..] == text[i + 2..] && rest[..2] == [text[i]] + [text[i + 1]];
        Associative(s.cur, [text[i]], [text[i + 1]]);
      }
    }
  }

  class Document {
    var data: Fields

    constructor ()
      ensures data == map[]
    {
      data := map[];
    }

    method SetString(key: string, value: string)
      modifies this
      ensures data == old(data)[key := value]
    {
      data := data[key := value];
    }

    /** to_string: the fields in the order of the map. */
    method ToString() returns (text: string)
      ensures exists order :: InOrder(data.Keys, order) && text == Written(data, order)
      ensures Parsed(text) == data - {""}
    {
      text := "";
      ghost var order: seq<string> := [];
      var left := data.Keys;
      while left != {}
        invariant left <= data.Keys && InOrder(data.Keys - left, order)
        invariant forall k, other :: k in order && other in left ==> AtMost(k, other)
        invariant text == Written(data, order)
        decreases left
      {
        FirstExists(left);
        var key :| key in left && forall other :: other in left ==> AtMost(key, other);
        var k := Escape(key);
        var v := Escape(data[key]);
        WrittenSnoc(data, order, key);
        text := text + (k + "=" + v + "\n");
        order := order + [key];
        left := left - {key};
      }
      assert data.Keys - left == data.Keys;
      ParsePrinted(data, order);
    }

    /** from_string: replaces the fields by those in the text. */
    method FromString(text: string) returns (ok: bool)
      modifies this
      ensures ok && data == Parsed(text)
    {
      hide Scan, Unescaped;
      data := map[];
      var key, cur, inKey := "", "", true;
      var i := 0;
      while i <= |text|
        invariant i <= |text| + 1
        invariant i <= |text| ==> Scan(text[i..], Scanner(key, cur, inKey, data)) == Parsed(text)
        invariant i == |text| + 1 ==> data == Parsed(text)
      {
        var c := if i < |text| then text[i] else '\n';
        ScanStep(text, i, Scanner(key, cur, inKey, data));
        if c == '\n' {
          if !inKey && key != "" {
            var k := Unescape(key);
            var v := Unescape(cur);
            data := data[k := v];
          }
          key, cur, inKey := "", "", true;
        } else if c == '=' && inKey {
          key, cur, inKey := cur, "", false;
        } else if c == '\\' && i + 1 < |text| {
          cur := cur + ['\\'];
          i := i + 1;
          cur := cur + [text[i]];
        } else {
          cur := cur + [c];
        }
        i := i + 1;
      }
      ok := true;
    }

    /** Saving to text and loading again, as a repository does. */
    method Reload() returns (ok: bool)
      modifies this
      ensures ok && data == old(data) - {""}
    {
      var text := ToString();
      ok := FromString(text);
    }
  }
}
