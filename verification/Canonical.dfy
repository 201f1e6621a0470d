/** JSON documents, their canonical text, and the proof that the text determines the document:
    the printer is prefix-decodable, scalars and strings following sections 2 and 7 of RFC 8259. */
module Canonical {
  import opened Basics

  /** What json.Marshal prints for a float64: a shortest decimal, so equal numbers have equal lexemes. */
  type Lexeme = s: string | s != [] && NumberStart(s[0]) && forall c <- s :: NumberChar(c) witness "0"

  predicate NumberStart(c: char) { c == '-' || '0' <= c <= '9' }
  predicate NumberChar(c: char) { NumberStart(c) || c == '+' || c == '.' || c == 'e' || c == 'E' }

  datatype Json =
    | Null
    | Bool(value: bool)
    | Num(lexeme: Lexeme)
    | Str(text: string)
    | Arr(items: seq<Json>)
    | Obj(fields: map<string, Json>)

  // ---------- keys in ascending order ----------

  predicate Less(a: string, b: string) {
    b != [] && (a == [] || a[0] < b[0] || (a[0] == b[0] && Less(a[1..], b[1..])))
  }

  predicate Ascending(ks: seq<string>) {
    forall i, j :: 0 <= i < j < |ks| ==> Less(ks[i], ks[j])
  }

  lemma {:induction false} LessOrder(a: string, b: string, c: string)
    ensures !Less(a, a)
    ensures Less(a, b) && Less(b, c) ==> Less(a, c)
    ensures a == b || Less(a, b) || Less(b, a)
    decreases a
  {
    if a != [] { LessOrder(a[1..], a[1..], a[1..]); }
    if a != [] && b != [] && c != [] {
      LessOrder(a[1..], b[1..], c[1..]);
    }
    if a != [] && b != [] {
      LessOrder(a[1..], b[1..], []);
      assert a[0] == b[0] && a[1..] == b[1..] ==> a == [a[0]] + a[1..] == b;
    }
  }

  /** One key comes before another when it is a proper beginning of it, or smaller at the first character that differs. */
  ghost predicate Before(a: string, b: string, k: nat) {
    k <= |a| && k < |b| && a[..k] == b[..k] && (k == |a| || a[k] < b[k])
  }

  lemma {:induction false} LessExactly(a: string, b: string)
    ensures Less(a, b) <==> exists k: nat :: Before(a, b, k)
  {
    if a != [] && b != [] && a[0] == b[0] {
      LessExactly(a[1..], b[1..]);
      assert a == [a[0]] + a[1..] && b == [a[0]] + b[1..];
      if k: nat :| Before(a[1..], b[1..], k) { assert a[..k + 1] == [a[0]] + a[1..][..k] && Before(a, b, k + 1); }
      if k: nat :| Before(a, b, k) {
        assert k > 0 && a[1..][..k - 1] == a[..k][1..] && b[1..][..k - 1] == b[..k][1..];
        assert Before(a[1..], b[1..], k - 1);
      }
    } else {
      if k: nat :| Before(a, b, k) { CommonFirst(a, b, k); }
      assert Less(a, b) ==> Before(a, b, 0);
    }
  }

  lemma CommonFirst(a: string, b: string, k: nat)
    requires k <= |a| && k <= |b| && a[..k] == b[..k]
    ensures k > 0 ==> a[0] == b[0]
  {
    assert k > 0 ==> a[..k][0] == a[0] && b[..k][0] == b[0];
  }

  function Insert(k: string, ks: seq<string>): seq<string> {
    if ks == [] || Less(k, ks[0]) then [k] + ks else [ks[0]] + Insert(k, ks[1..])
  }

  /** The effect of sort.Strings. */
  function Sorted(ks: seq<string>): seq<string> {
    if ks == [] then [] else Insert(ks[0], Sorted(ks[1..]))
  }

  ghost function Keys(ks: seq<string>): set<string> { set k | k in ks }

  lemma {:induction false} InsertSorts(k: string, ks: seq<string>)
    requires Ascending(ks) && k !in ks
    ensures Ascending(Insert(k, ks)) && Keys(Insert(k, ks)) == Keys(ks) + {k}
  {
    if ks != [] && !Less(k, ks[0]) {
      var rest := ks[1..];
      assert ks == [ks[0]] + rest;
      InsertSorts(k, rest);
      LessOrder(k, ks[0], []);
      var all := Insert(k, rest);
      forall x | x in all ensures Less(ks[0], x) {
        assert x in Keys(all);
      }
      assert forall x :: x in Insert(k, ks) <==> x == ks[0] || x in Keys(all);
    } else if ks != [] {
      forall i | 0 <= i < |ks| ensures Less(k, ks[i]) { LessOrder(k, ks[0], ks[i]); }
    }
  }

  predicate Distinct(ks: seq<string>) {
    forall i, j :: 0 <= i < j < |ks| ==> ks[i] != ks[j]
  }

  lemma {:induction false} SortedSorts(ks: seq<string>)
    requires Distinct(ks)
    ensures Ascending(Sorted(ks)) && Keys(Sorted(ks)) == Keys(ks)
  {
    if ks != [] {
      SortedSorts(ks[1..]);
      assert ks[0] !in Keys(ks[1..]);
      InsertSorts(ks[0], Sorted(ks[1..]));
      assert ks == [ks[0]] + ks[1..];
    }
  }

  lemma NoKeys(ks: seq<string>)
    ensures Keys(ks) == {} <==> ks == []
  {
    if ks != [] { assert ks[0] in Keys(ks); }
  }

  /** Only one ascending sequence lists a given set of keys: the order a map hands them out is lost. */
  lemma {:induction false} AscendingUnique(ks: seq<string>, js: seq<string>)
    requires Ascending(ks) && Ascending(js) && Keys(ks) == Keys(js)
    ensures ks == js
  {
    if ks == [] || js == [] {
      NoKeys(ks);
      NoKeys(js);
    } else {
      assert ks[0] in Keys(js) && js[0] in Keys(ks);
      LessOrder(ks[0], js[0], ks[0]);
      LessOrder(ks[0], ks[0], ks[0]);
      LessOrder(js[0], js[0], js[0]);
      assert ks[0] == js[0];
      forall x ensures x in Keys(ks[1..]) <==> x in Keys(js[1..]) {
        LessOrder(ks[0], ks[0], ks[0]);
        assert x in Keys(ks[1..]) ==> x in Keys(ks) && x != ks[0];
        assert x in Keys(js[1..]) ==> x in Keys(js) && x != js[0];
        assert x in Keys(ks) && x != ks[0] ==> x in ks[1..];
        assert x in Keys(js) && x != js[0] ==> x in js[1..];
      }
      AscendingUnique(ks[1..], js[1..]);
      assert ks == [ks[0]] + ks[1..] && js == [js[0]] + js[1..];
    }
  }

  lemma {:induction false} Enumerate(s: set<string>) returns (ks: seq<string>)
    ensures Distinct(ks) && Keys(ks) == s
    decreases |s|
  {
    if s == {} {
      ks := [];
    } else {
      var k :| k in s;
      var rest := Enumerate(s - {k});
      ks := [k] + rest;
      forall i | 0 <= i < |rest| ensures rest[i] != k { assert rest[i] in Keys(rest); }
      assert forall x :: x in ks <==> x == k || x in Keys(rest);
    }
  }

  ghost predicate Lists(ks: seq<string>, s: set<string>) { Ascending(ks) && Keys(ks) == s }

  lemma SomethingLists(s: set<string>)
    ensures exists ks :: Lists(ks, s)
  {
    var ks := Enumerate(s);
    SortedSorts(ks);
    assert Lists(Sorted(ks), s);
  }

  ghost function Ordered(s: set<string>): (ks: seq<string>)
    ensures Lists(ks, s)
  {
    SomethingLists(s);
    var ks :| Lists(ks, s);
    ks
  }

  // ---------- the text ----------

  function Hex(n: nat): char
    requires n < 16
  {
    "0123456789abcdef"[n]
  }

  /** One character of a JSON string as Go writes it, HTML escaping included. */
  function Escape(c: char): string {
    if c == '\"' then "\\\""
    else if c == '\\' then "\\\\"
    else if c == 8 as char then "\\b"
    else if c == 12 as char then "\\f"
    else if c == '\n' then "\\n"
    else if c == '\r' then "\\r"
    else if c == '\t' then "\\t"
    else if c < ' ' || c == '<' || c == '>' || c == '&' then
      ['\\', 'u', '0', '0', Hex(c as int / 16), Hex(c as int % 16)]
    else if c as int == 0x2028 then "\\u2028"
    else if c as int == 0x2029 then "\\u2029"
    else [c]
  }

  function Escaped(s: string): string {
    if s == [] then [] else Escape(s[0]) + Escaped(s[1..])
  }

  function Quote(s: string): string { "\"" + Escaped(s) + "\"" }

  // ---------- strings read by the standard ----------

  function Digit(c: char): Option<nat> {
    if '0' <= c <= '9' then Some(c as int - '0' as int)
    else if 'a' <= c <= 'f' then Some(c as int - 'a' as int + 10)
    else if 'A' <= c <= 'F' then Some(c as int - 'A' as int + 10)
    else None
  }

  /** The character that a backslash and c stand for, apart from those given by number. */
  function Named(c: char): Option<char> {
    if c == '\"' || c == '\\' || c == '/' then Some(c)
    else if c == 'b' then Some(8 as char) else if c == 'f' then Some(12 as char) else if c == 'n' then Some(10 as char)
    else if c == 'r' then Some(13 as char) else if c == 't' then Some(9 as char) else None
  }

  /** The first character of a text between quotes, and the rest of the text (section 7 of RFC 8259). */
  function ReadChar(t: string): Option<(char, string)> {
    if t == [] || t[0] == '\"' || t[0] < ' ' then None
    else if t[0] != '\\' then Some((t[0], t[1..]))
    else if |t| < 2 then None
    else if t[1] != 'u' then match Named(t[1]) case Some(c) => Some((c, t[2..])) case None => None
    else if |t| < 6 then None
    else
      match Number(t[2..6])
      case Some(n) => if n < 0xD800 then Some((n as char, t[6..])) else None
      case None => None
  }

  function Number(t: string): Option<nat>
    requires |t| == 4
  {
    match (Digit(t[0]), Digit(t[1]), Digit(t[2]), Digit(t[3]))
    case (Some(a), Some(b), Some(c), Some(d)) => Some(((a * 16 + b) * 16 + c) * 16 + d)
    case _ => None
  }

  /** The text between quotes as a whole. Numbers of surrogates are not read here. */
  function ReadText(t: string): Option<string>
    decreases |t|
  {
    if t == [] then Some([])
    else
      match ReadChar(t)
      case None => None
      case Some((c, rest)) =>
        if |rest| >= |t| then None
        else match ReadText(rest) case Some(s) => Some([c] + s) case None => None
  }

  /** Not for a page of HTML, or not for a script in it. */
  predicate Special(c: char) { c == '<' || c == '>' || c == '&' || c as int == 0x2028 || c as int == 0x2029 }

  /** A character is written as itself, by name or by number. */
  predicate Itself(e: string, c: char) { e == [c] && c >= ' ' && c != '\"' && c != '\\' && !Special(c) }
  predicate ByName(e: string, c: char) { |e| == 2 && e[0] == '\\' && Named(e[1]) == Some(c) }
  predicate ByNumber(e: string, c: char) { |e| == 6 && e[0] == '\\' && e[1] == 'u' && Number(e[2..]) == Some(c as int) && c as int < 0xD800 }

  lemma EscapeCases(c: char)
    ensures Itself(Escape(c), c) || ByName(Escape(c), c) || ByNumber(Escape(c), c)
    ensures Escape(c) == [c] || c < ' ' || c == '\"' || c == '\\' || Special(c)
  {
    var e := Escape(c);
    hide Number;
    if |e| == 6 { EscapeNumber(c); }
  }

  lemma EscapeNumber(c: char)
    requires |Escape(c)| == 6
    ensures ByNumber(Escape(c), c)
  {
    var e := Escape(c);
    if e[2] == '0' {
      var h, l := c as int / 16, c as int % 16;
      assert e[2..] == ['0', '0', Hex(h), Hex(l)];
      hide Hex, Digit;
      HexReads(h);
      HexReads(l);
      ZeroDigit();
    } else {
      assert e[2..] == "2028" || e[2..] == "2029";
    }
  }

  lemma ZeroDigit()
    ensures Digit('0') == Some(0)
  {
  }

  lemma EscapePlain(c: char)
    ensures forall x | x in Escape(c) :: x >= ' ' && !Special(x)
  {
    hide Hex;
    HexReads(c as int / 16 % 16);
    HexReads(c as int % 16);
  }

  lemma HexReads(n: nat)
    requires n < 16
    ensures Digit(Hex(n)) == Some(n) && !Special(Hex(n)) && Hex(n) >= ' '
  {
  }

  lemma EscapeReads(c: char, t: string)
    ensures ReadChar(Escape(c) + t) == Some((c, t))
  {
    hide Escape, Number;
    EscapeCases(c);
    var e := Escape(c);
    assert (e + t)[|e|..] == t;
    assert |e| == 6 ==> (e + t)[2..6] == e[2..];
  }

  lemma ReadNext(t: string, c: char, rest: string)
    requires ReadChar(t) == Some((c, rest)) && |rest| < |t|
    ensures ReadText(t) == match ReadText(rest) case Some(s) => Some([c] + s) case None => None
  {
    hide ReadChar;
    assert t != [];
  }

  /** A reader of the standard gets the string back; the text has no control characters and none special to HTML. */
  lemma {:induction false} EscapedReadsBack(s: string)
    ensures ReadText(Escaped(s)) == Some(s)
    ensures forall x | x in Escaped(s) :: x >= ' ' && !Special(x)
  {
    if s != [] {
      hide Escape, ReadChar, ReadText;
      var rest := Escaped(s[1..]);
      EscapedReadsBack(s[1..]);
      EscapePlain(s[0]);
      EscapeReads(s[0], rest);
      EscapeShape(s[0]);
      ReadNext(Escaped(s), s[0], rest);
      assert s == [s[0]] + s[1..];
    }
  }

  /** The canonical text of a document. */
  ghost function Print(d: Json): string
    decreases d, 1, 0
  {
    match d
    case Null => "null"
    case Bool(b) => if b then "true" else "false"
    case Num(l) => l
    case Str(s) => Quote(s)
    case Arr(items) => "[" + PrintItems(d, 0) + "]"
    case Obj(fields) => "{" + PrintFields(d, Ordered(fields.Keys), true) + "}"
  }

  ghost function PrintItems(d: Json, i: nat): string
    requires d.Arr? && i <= |d.items|
    decreases d, 0, |d.items| - i
  {
    if i == |d.items| then [] else (if i == 0 then "" else ",") + Print(d.items[i]) + PrintItems(d, i + 1)
  }

  ghost function PrintFields(d: Json, ks: seq<string>, first: bool): string
    requires d.Obj? && forall k <- ks :: k in d.fields
    decreases d, 0, |ks|
  {
    if ks == [] then []
    else (if first then "" else ",") + Quote(ks[0]) + ":" + Print(d.fields[ks[0]]) + PrintFields(d, ks[1..], false)
  }

  // ---------- reading the text back ----------

  lemma Strip(a: string, u: string, b: string, v: string)
    requires a + u == b + v && |a| == |b|
    ensures a == b && u == v
  {
    assert a == (a + u)[..|a|] && b == (b + v)[..|b|];
    assert u == (a + u)[|a|..] && v == (b + v)[|b|..];
  }

  lemma EscapeShape(c: char)
    ensures 1 <= |Escape(c)| && Escape(c)[0] != '\"'
    ensures |Escape(c)| == if Escape(c)[0] != '\\' then 1 else if |Escape(c)| > 1 && Escape(c)[1] == 'u' then 6 else 2
  {
  }

  lemma EscapeInjective(c: char, d: char)
    requires Escape(c) == Escape(d)
    ensures c == d
  {
    var e := Escape(c);
    if |e| == 6 && e[2] == '0' {
      HexInjective(c as int / 16, d as int / 16);
      HexInjective(c as int % 16, d as int % 16);
    }
  }

  lemma HexInjective(m: nat, n: nat)
    requires m < 16 && n < 16
    ensures Hex(m) == Hex(n) <==> m == n
  {
  }

  lemma EscapePrefix(c: char, u: string, d: char, v: string)
    requires Escape(c) + u == Escape(d) + v
    ensures c == d && u == v
  {
    hide Escape;
    EscapeShape(c);
    EscapeShape(d);
    var t := Escape(c) + u;
    assert t[0] == Escape(c)[0] == Escape(d)[0];
    assert t[0] == '\\' ==> t[1] == Escape(c)[1] == Escape(d)[1];
    Strip(Escape(c), u, Escape(d), v);
    EscapeInjective(c, d);
  }

  lemma {:induction false} EscapedPrefix(a: string, u: string, b: string, v: string)
    requires Escaped(a) + ("\"" + u) == Escaped(b) + ("\"" + v)
    ensures a == b && u == v
    decreases |a|
  {
    hide Escape;
    var t := Escaped(a) + ("\"" + u);
    if a != [] {
      EscapeShape(a[0]);
      assert t == Escape(a[0]) + (Escaped(a[1..]) + ("\"" + u));
      assert t[0] == Escape(a[0])[0];
    }
    if b != [] {
      EscapeShape(b[0]);
      assert t == Escape(b[0]) + (Escaped(b[1..]) + ("\"" + v));
      assert t[0] == Escape(b[0])[0];
    }
    if a == [] {
      assert t[0] == '\"';
      assert u == t[1..] == v;
    } else {
      assert b != [];
      EscapePrefix(a[0], Escaped(a[1..]) + ("\"" + u), b[0], Escaped(b[1..]) + ("\"" + v));
      EscapedPrefix(a[1..], u, b[1..], v);
      assert a == [a[0]] + a[1..] && b == [b[0]] + b[1..];
    }
  }

  lemma QuotePrefix(a: string, u: string, b: string, v: string)
    requires Quote(a) + u == Quote(b) + v
    ensures a == b && u == v
  {
    hide Escaped;
    var x, y := Escaped(a) + ("\"" + u), Escaped(b) + ("\"" + v);
    assert Quote(a) + u == "\"" + x && Quote(b) + v == "\"" + y;
    Strip("\"", x, "\"", y);
    EscapedPrefix(a, u, b, v);
  }

  /** What follows a value inside a document, or the end. */
  predicate Delimits(r: string) { r == [] || r[0] == ',' || r[0] == ']' || r[0] == '}' }

  lemma NotShorter(l: Lexeme, u: string, m: Lexeme, v: string)
    requires l + u == m + v && Delimits(u)
    ensures |l| >= |m|
  {
    if |l| < |m| { NextChar(l, u, m, v); }
  }

  lemma NextChar(l: string, u: string, m: string, v: string)
    requires |l| < |m|
    ensures l + u == m + v ==> u != [] && u[0] == m[|l|]
  {
    assert l + u == m + v ==> (l + u)[|l|] == (m + v)[|l|];
  }

  lemma LexemePrefix(l: Lexeme, u: string, m: Lexeme, v: string)
    requires l + u == m + v && Delimits(u) && Delimits(v)
    ensures l == m && u == v
  {
    NotShorter(l, u, m, v);
    NotShorter(m, v, l, u);
    Strip(l, u, m, v);
  }

  /** The first character tells the kind of value, and which boolean it is. */
  function Tag(c: char): int {
    if NumberStart(c) then 0 else c as int
  }

  function TagOf(d: Json): int {
    match d
    case Null => 'n' as int
    case Bool(b) => if b then 't' as int else 'f' as int
    case Num(_) => 0
    case Str(_) => '\"' as int
    case Arr(_) => '[' as int
    case Obj(_) => '{' as int
  }

  lemma PrintStart(d: Json)
    ensures Print(d) != [] && Tag(Print(d)[0]) == TagOf(d)
    ensures Print(d)[0] != ']'
  {
  }

  /** No document's text followed by a delimiter can be read as another document's. */
  lemma {:induction false} PrintPrefix(x: Json, u: string, y: Json, v: string)
    requires Print(x) + u == Print(y) + v && Delimits(u) && Delimits(v)
    ensures x == y && u == v
    decreases x, 1, 0
  {
    SameKind(x, u, y, v);
    match x
    case Null => Strip(Print(x), u, Print(y), v);
    case Bool(_) => Strip(Print(x), u, Print(y), v);
    case Num(l) => LexemePrefix(l, u, y.lexeme, v);
    case Str(s) => QuotePrefix(s, u, y.text, v);
    case Arr(_) =>
      ArrayText(x, u);
      ArrayText(y, v);
      Strip("[", PrintItems(x, 0) + ("]" + u), "[", PrintItems(y, 0) + ("]" + v));
      ItemsPrefix(x, u, y, v, 0);
      assert x.items[0..] == x.items && y.items[0..] == y.items;
    case Obj(_) =>
      ObjectText(x, u);
      ObjectText(y, v);
      var ks, js := Ordered(x.fields.Keys), Ordered(y.fields.Keys);
      Strip("{", PrintFields(x, ks, true) + ("}" + u), "{", PrintFields(y, js, true) + ("}" + v));
      FieldsPrefix(x, ks, u, y, js, v, true);
      SameFields(x.fields, y.fields, ks);
  }

  lemma SameFields(m: map<string, Json>, n: map<string, Json>, ks: seq<string>)
    requires m.Keys == n.Keys == Keys(ks)
    requires forall k | k in ks :: k in m && k in n && m[k] == n[k]
    ensures m == n
  {
    forall k | k in m ensures m[k] == n[k] { assert k in Keys(ks); }
  }

  lemma SameKind(x: Json, u: string, y: Json, v: string)
    requires Print(x) + u == Print(y) + v
    ensures TagOf(x) == TagOf(y)
  {
    hide Print;
    PrintStart(x);
    PrintStart(y);
    assert Print(x)[0] == (Print(x) + u)[0] == (Print(y) + v)[0] == Print(y)[0];
  }

  lemma ArrayText(d: Json, u: string)
    requires d.Arr?
    ensures Print(d) + u == "[" + (PrintItems(d, 0) + ("]" + u))
  {
    hide PrintItems;
    assert Print(d) == "[" + PrintItems(d, 0) + "]";
  }

  lemma ObjectText(d: Json, u: string)
    requires d.Obj?
    ensures Print(d) + u == "{" + (PrintFields(d, Ordered(d.fields.Keys), true) + ("}" + u))
  {
    hide PrintFields;
    assert Print(d) == "{" + PrintFields(d, Ordered(d.fields.Keys), true) + "}";
  }

  function Comma(first: bool): string { if first then "" else "," }

  lemma {:induction false} ItemText(d: Json, i: nat, u: string)
    requires d.Arr? && i < |d.items|
    ensures PrintItems(d, i) + u == Comma(i == 0) + (Print(d.items[i]) + (PrintItems(d, i + 1) + u))
  {
    hide Print;
    var p, q := Print(d.items[i]), PrintItems(d, i + 1);
    assert PrintItems(d, i) == Comma(i == 0) + p + q;
  }

  lemma {:induction false} ItemsEnd(d: Json, i: nat, u: string)
    requires d.Arr? && i <= |d.items|
    ensures i == |d.items| ==> PrintItems(d, i) + u == u
    ensures i > 0 && i < |d.items| ==> PrintItems(d, i) != [] && PrintItems(d, i)[0] == ','
    ensures i == 0 && i < |d.items| ==> PrintItems(d, i) != [] && PrintItems(d, i)[0] != ']'
    ensures i > 0 ==> Delimits(PrintItems(d, i) + ("]" + u))
  {
    if i < |d.items| {
      ItemText(d, i, "");
      PrintStart(d.items[i]);
      assert PrintItems(d, i) + "" == PrintItems(d, i);
    }
  }

  lemma {:induction false} ItemsPrefix(x: Json, u: string, y: Json, v: string, i: nat)
    requires x.Arr? && y.Arr? && i <= |x.items| && i <= |y.items|
    requires PrintItems(x, i) + ("]" + u) == PrintItems(y, i) + ("]" + v)
    ensures x.items[i..] == y.items[i..] && u == v
    decreases x, 0, |x.items| - i
  {
    hide Print, PrintItems;
    ItemsEnd(x, i, "]" + u);
    ItemsEnd(y, i, "]" + v);
    SameEnd(PrintItems(x, i), u, PrintItems(y, i), v, ']');
    if i == |x.items| {
      assert i == |y.items|;
      Strip("]", u, "]", v);
    } else {
      assert i < |y.items|;
      ItemText(x, i, "]" + u);
      ItemText(y, i, "]" + v);
      var p, q := PrintItems(x, i + 1) + ("]" + u), PrintItems(y, i + 1) + ("]" + v);
      Strip(Comma(i == 0), Print(x.items[i]) + p, Comma(i == 0), Print(y.items[i]) + q);
      ItemsEnd(x, i + 1, u);
      ItemsEnd(y, i + 1, v);
      PrintPrefix(x.items[i], p, y.items[i], q);
      ItemsPrefix(x, u, y, v, i + 1);
      assert x.items[i..] == [x.items[i]] + x.items[i + 1..];
      assert y.items[i..] == [y.items[i]] + y.items[i + 1..];
    }
  }

  lemma SameEnd(p: string, u: string, q: string, v: string, c: char)
    requires p + ([c] + u) == q + ([c] + v)
    requires p != [] ==> p[0] != c
    requires q != [] ==> q[0] != c
    ensures p == [] <==> q == []
  {
    var t := p + ([c] + u);
    assert p == [] ==> t[0] == c;
    assert q == [] ==> t[0] == c;
    assert p != [] ==> t[0] == p[0];
    assert q != [] ==> t[0] == q[0];
  }

  lemma {:induction false} FieldText(d: Json, ks: seq<string>, first: bool, u: string)
    requires d.Obj? && ks != [] && forall k <- ks :: k in d.fields
    ensures PrintFields(d, ks, first) + u
         == Comma(first) + (Quote(ks[0]) + (":" + (Print(d.fields[ks[0]]) + (PrintFields(d, ks[1..], false) + u))))
  {
    hide Print, Quote;
    var k, p, q := Quote(ks[0]), Print(d.fields[ks[0]]), PrintFields(d, ks[1..], false);
    assert PrintFields(d, ks, first) == Comma(first) + k + ":" + p + q;
  }

  lemma {:induction false} FieldsEnd(d: Json, ks: seq<string>, first: bool, u: string)
    requires d.Obj? && forall k <- ks :: k in d.fields
    ensures ks == [] ==> PrintFields(d, ks, first) + u == u
    ensures PrintFields(d, ks, first) == [] <==> ks == []
    ensures ks != [] ==> PrintFields(d, ks, first)[0] == if first then '\"' else ','
    ensures !first ==> Delimits(PrintFields(d, ks, first) + ("}" + u))
  {
    if ks != [] {
      FieldText(d, ks, first, "");
      assert PrintFields(d, ks, first) + "" == PrintFields(d, ks, first);
      assert Quote(ks[0])[0] == '\"';
    }
  }

  lemma {:induction false} FieldsPrefix(x: Json, ks: seq<string>, u: string, y: Json, js: seq<string>, v: string, first: bool)
    requires x.Obj? && (forall k <- ks :: k in x.fields) && y.Obj? && (forall k <- js :: k in y.fields)
    requires PrintFields(x, ks, first) + ("}" + u) == PrintFields(y, js, first) + ("}" + v)
    ensures ks == js && u == v
    ensures forall k | k in ks :: x.fields[k] == y.fields[k]
    decreases x, 0, |ks|
  {
    hide Print, PrintFields, Quote;
    FieldsEnd(x, ks, first, "}" + u);
    FieldsEnd(y, js, first, "}" + v);
    SameEnd(PrintFields(x, ks, first), u, PrintFields(y, js, first), v, '}');
    if ks == [] {
      Strip("}", u, "}", v);
    } else {
      assert js != [];
      FieldText(x, ks, first, "}" + u);
      FieldText(y, js, first, "}" + v);
      var k, j := ks[0], js[0];
      var p, q := PrintFields(x, ks[1..], false) + ("}" + u), PrintFields(y, js[1..], false) + ("}" + v);
      var a, b := ":" + (Print(x.fields[k]) + p), ":" + (Print(y.fields[j]) + q);
      Strip(Comma(first), Quote(k) + a, Comma(first), Quote(j) + b);
      QuotePrefix(k, a, j, b);
      Strip(":", Print(x.fields[k]) + p, ":", Print(y.fields[j]) + q);
      FieldsEnd(x, ks[1..], false, u);
      FieldsEnd(y, js[1..], false, v);
      PrintPrefix(x.fields[k], p, y.fields[j], q);
      FieldsPrefix(x, ks[1..], u, y, js[1..], v, false);
      assert ks == [k] + ks[1..] && js == [j] + js[1..];
    }
  }

  /** The canonical text determines the document. */
  lemma PrintInjective(x: Json, y: Json)
    ensures Print(x) == Print(y) <==> x == y
  {
    if Print(x) == Print(y) {
      assert Print(x) + [] == Print(y) + [];
      PrintPrefix(x, [], y, []);
    }
  }
}
