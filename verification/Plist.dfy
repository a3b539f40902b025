/** The property-list printer of the SEB configuration spike, and a reader for its subset. */
module Plist {
  import opened Text
  import Decimal

  datatype Value =
    | Bool(b: bool)
    | Int(n: int)
    | Str(s: string)
    | Arr(items: seq<Value>)
    | Dict(entries: seq<Entry>)
    | Unsupported
  datatype Entry = Entry(key: string, value: Value)

  // ---- printing ------------------------------------------------------------------------------

  /** `s.replace(/c/g, text)` */
  function Replace(s: string, c: char, text: string): string {
    if s == "" then "" else (if s[0] == c then text else [s[0]]) + Replace(s[1..], c, text)
  }

  /** Three global replacements, one after the other. */
  function XmlEscape(s: string): string {
    Replace(Replace(Replace(s, '&', "&amp;"), '<', "&lt;"), '>', "&gt;")
  }

  function Pad(indent: nat): string { seq(indent, _ => '\t') }

  /** Only a negative integer is printed with a sign, and none but the sign. */
  lemma {:induction false} SignOfNegatives(n: int)
    ensures PrintInt(n)[0] == '-' <==> n < 0
    ensures '-' !in PrintInt(n)[1..]
  {
    assert Decimal.AllDigits(Decimal.Print(if n < 0 then -n else n));
    assert !Decimal.IsDigit('-');
  }

  function PrintInt(n: int): string { if n < 0 then "-" + Decimal.Print(-n) else Decimal.Print(n) }

  datatype Printed = Text(text: string) | Throws
  datatype PrintedAll = Texts(texts: seq<string>) | ThrowsAll

  function PlistValue(v: Value, indent: nat): Printed
    decreases v, 0
  {
    var pad := Pad(indent);
    match v
    case Bool(b) => Text(pad + "<" + (if b then "true" else "false") + "/>")
    case Int(n) => Text(pad + "<integer>" + PrintInt(n) + "</integer>")
    case Str(s) => Text(pad + "<string>" + XmlEscape(s) + "</string>")
    case Arr(items) =>
      if items == [] then Text(pad + "<array/>")
      else
        var printed := PrintItems(items, indent + 1);
        if printed.ThrowsAll? then Throws
        else Text(pad + "<array>\n" + Join(printed.texts, "\n") + "\n" + pad + "</array>")
    case Dict(entries) =>
      if entries == [] then Throws
      else
        var printed := PrintEntries(entries, indent);
        if printed.ThrowsAll? then Throws
        else Text(pad + "<dict>\n" + Join(printed.texts, "\n") + "\n" + pad + "</dict>")
    case Unsupported => Throws
  }

  function PrintItems(items: seq<Value>, indent: nat): (r: PrintedAll)
    ensures r.Texts? ==> |r.texts| == |items|
    decreases items, 1
  {
    if items == [] then Texts([])
    else
      var first, rest := PlistValue(items[0], indent), PrintItems(items[1..], indent);
      if first.Throws? || rest.ThrowsAll? then ThrowsAll else Texts([first.text] + rest.texts)
  }

  function PrintEntries(entries: seq<Entry>, indent: nat): (r: PrintedAll)
    ensures r.Texts? ==> |r.texts| == |entries|
    decreases entries, 1
  {
    if entries == [] then Texts([])
    else
      var e := entries[0];
      var first, rest := PlistValue(e.value, indent + 1), PrintEntries(entries[1..], indent);
      if first.Throws? || rest.ThrowsAll? then ThrowsAll
      else Texts([Pad(indent) + "\t<key>" + XmlEscape(e.key) + "</key>\n" + first.text] + rest.texts)
  }

  const HEADER := "<?xml version=\"1.0\" encoding=\"UTF-8\"?>\n"
                + "<!DOCTYPE plist PUBLIC \"-//Apple//DTD PLIST 1.0//EN\" \"http://www.apple.com/DTDs/PropertyList-1.0.dtd\">\n"
                + "<plist version=\"1.0\">\n"

  function ToPlist(v: Value): Printed {
    var body := PlistValue(v, 0);
    if body.Throws? then Throws else Text(HEADER + body.text + "\n</plist>\n")
  }

  /** The trees the writer accepts: no empty dict and nothing of another type anywhere. */
  predicate Printable(v: Value) {
    match v
    case Arr(items) => forall k :: 0 <= k < |items| ==> Printable(items[k])
    case Dict(entries) => entries != [] && forall k :: 0 <= k < |entries| ==> Printable(entries[k].value)
    case Unsupported => false
    case _ => true
  }

  // ---- reading ----------------------------------------------------------------------------------

  /** Line-end normalisation (section 2.11 of XML 1.0): CR LF and lone CR read as LF. */
  function Normalize(s: string): string {
    if s == "" then ""
    else if s[0] == '\r' then
      "\n" + (if |s| > 1 && s[1] == '\n' then Normalize(s[2..]) else Normalize(s[1..]))
    else [s[0]] + Normalize(s[1..])
  }

  predicate IsWhite(c: char) { c == ' ' || c == '\t' || c == '\n' }

  function SkipWhite(s: string): (t: string)
    ensures |t| <= |s|
  {
    if s != "" && IsWhite(s[0]) then SkipWhite(s[1..]) else s
  }

  datatype Cut = Cut(front: string, rest: string)

  /** The text before the first `c`, and the text from it on. */
  function Until(s: string, c: char): (r: Cut)
    ensures |r.rest| <= |s| && (r.rest != "" ==> r.rest[0] == c)
  {
    if s == "" || s[0] == c then Cut("", s) else var r := Until(s[1..], c); Cut([s[0]] + r.front, r.rest)
  }

  datatype Tag = NoTag | Tag(name: string, rest: string)

  function ReadTag(s: string): (t: Tag)
    ensures t.Tag? ==> |t.rest| < |s|
  {
    if s == "" || s[0] != '<' then NoTag
    else
      var r := Until(s[1..], '>');
      if r.rest == "" then NoTag else Tag(r.front, r.rest[1..])
  }

  /** Character data up to the closing tag of the given name. */
  function ReadContent(s: string, close: string): (t: Tag)
    ensures t.Tag? ==> |t.rest| < |s|
  {
    var r := Until(s, '<');
    var tag := ReadTag(r.rest);
    if tag.Tag? && tag.name == close then Tag(r.front, tag.rest) else NoTag
  }

  function Unescape(s: string): string {
    if s == "" then ""
    else if StartsWith(s, "&amp;") then "&" + Unescape(s[5..])
    else if StartsWith(s, "&lt;") then "<" + Unescape(s[4..])
    else if StartsWith(s, "&gt;") then ">" + Unescape(s[4..])
    else [s[0]] + Unescape(s[1..])
  }

  datatype MaybeInt = NotInt | JustInt(n: int)

  function ParseInt(s: string): MaybeInt {
    if s != "" && s[0] == '-' then (if Decimal.AllDigits(s[1..]) && |s| > 1 then JustInt(0 - Decimal.Parse(s[1..])) else NotInt)
    else if s != "" && Decimal.AllDigits(s) then JustInt(Decimal.Parse(s))
    else NotInt
  }

  datatype Parsed = Done(value: Value, rest: string) | NoParse
  datatype ParsedItems = Items(items: seq<Value>, rest: string) | NoItems
  datatype ParsedEntries = Entries(entries: seq<Entry>, rest: string) | NoEntries

  function ReadValue(s: string): Parsed {
    var tag := ReadTag(SkipWhite(s));
    if tag.NoTag? then NoParse else ReadBody(tag.name, tag.rest)
  }

  /** The value whose opening tag has just been read. */
  function ReadBody(name: string, s: string): (r: Parsed)
    ensures r.Done? ==> |r.rest| <= |s|
    decreases |s|, 1
  {
    if name == "true/" then Done(Bool(true), s)
    else if name == "false/" then Done(Bool(false), s)
    else if name == "array/" then Done(Arr([]), s)
    else if name == "integer" then
      var t := ReadContent(s, "/integer");
      if t.NoTag? then NoParse
      else var n := ParseInt(t.name); if n.NotInt? then NoParse else Done(Int(n.n), t.rest)
    else if name == "string" then
      var t := ReadContent(s, "/string");
      if t.NoTag? then NoParse else Done(Str(Unescape(t.name)), t.rest)
    else if name == "array" then
      var t := ReadItems(s);
      if t.NoItems? then NoParse else Done(Arr(t.items), t.rest)
    else if name == "dict" then
      var t := ReadEntries(s);
      if t.NoEntries? then NoParse else Done(Dict(t.entries), t.rest)
    else NoParse
  }

  function ReadItems(s: string): (r: ParsedItems)
    ensures r.Items? ==> |r.rest| <= |s|
    decreases |s|, 0
  {
    var tag := ReadTag(SkipWhite(s));
    if tag.NoTag? then NoItems
    else if tag.name == "/array" then Items([], tag.rest)
    else
      var v := ReadBody(tag.name, tag.rest);
      if v.NoParse? then NoItems
      else
        var more := ReadItems(v.rest);
        if more.NoItems? then NoItems else Items([v.value] + more.items, more.rest)
  }

  function ReadEntries(s: string): (r: ParsedEntries)
    ensures r.Entries? ==> |r.rest| <= |s|
    decreases |s|, 0
  {
    var tag := ReadTag(SkipWhite(s));
    if tag.NoTag? then NoEntries
    else if tag.name == "/dict" then Entries([], tag.rest)
    else if tag.name != "key" then NoEntries
    else
      var key := ReadContent(tag.rest, "/key");
      if key.NoTag? then NoEntries
      else
        var open := ReadTag(SkipWhite(key.rest));
        if open.NoTag? then NoEntries
        else
          var v := ReadBody(open.name, open.rest);
          if v.NoParse? then NoEntries
          else
            var more := ReadEntries(v.rest);
            if more.NoEntries? then NoEntries else Entries([Entry(Unescape(key.name), v.value)] + more.entries, more.rest)
  }

  datatype Document = Document(value: Value) | Malformed

  /** The XML declaration, the document type and the opening tag, a line each. */
  const PROLOGUE: seq<string> := [
    "<?xml version=\"1.0\" encoding=\"UTF-8\"?>",
    "<!DOCTYPE plist PUBLIC \"-//Apple//DTD PLIST 1.0//EN\" \"http://www.apple.com/DTDs/PropertyList-1.0.dtd\">",
    "<plist version=\"1.0\">"
  ]

  /** The prologue, then one value, the closing plist tag, and white space only. */
  function ReadPlist(doc: string): Document {
    if !StartsWith(doc, Lines(PROLOGUE)) then Malformed
    else
      var v := ReadValue(Normalize(doc[|Lines(PROLOGUE)|..]));
      if v.NoParse? then Malformed
      else
        var close := ReadTag(SkipWhite(v.rest));
        if close.Tag? && close.name == "/plist" && SkipWhite(close.rest) == "" then Document(v.value) else Malformed
  }

  /** The writer's header is the prologue. */
  lemma {:induction false} HeaderIsPrologue()
    ensures HEADER == Lines(PROLOGUE)
  {
    var p := PROLOGUE;
    assert p[1..] == [p[1], p[2]] && p[1..][1..] == [p[2]] && p[1..][1..][1..] == [];
    assert Lines(p) == p[0] + "\n" + (p[1] + "\n" + (p[2] + "\n" + ""));
  }

  // ---- escaping is undone by unescaping --------------------------------------------------------------

  function EscapedChar(c: char): string {
    if c == '&' then "&amp;" else if c == '<' then "&lt;" else if c == '>' then "&gt;" else [c]
  }

  function EscapedChars(s: string): string {
    if s == "" then "" else EscapedChar(s[0]) + EscapedChars(s[1..])
  }

  lemma ReplaceFirst(x: char, t: string, c: char, text: string)
    ensures Replace([x] + t, c, text) == (if x == c then text else [x]) + Replace(t, c, text)
  {
    assert ([x] + t)[1..] == t;
  }

  lemma {:induction false} ReplaceConcat(a: string, b: string, c: char, text: string)
    ensures Replace(a + b, c, text) == Replace(a, c, text) + Replace(b, c, text)
  {
    if a == "" {
      assert a + b == b;
    } else {
      hide Replace;
      ReplaceConcat(a[1..], b, c, text);
      ReplaceFirst(a[0], a[1..], c, text);
      ReplaceFirst(a[0], a[1..] + b, c, text);
      assert a == [a[0]] + a[1..] && a + b == [a[0]] + (a[1..] + b);
      Associate(if a[0] == c then text else [a[0]], Replace(a[1..], c, text), Replace(b, c, text));
    }
  }

  lemma Associate(x: string, y: string, z: string)
    ensures x + (y + z) == (x + y) + z
  {
  }

  lemma {:induction false} ReplaceAbsent(s: string, c: char, text: string)
    requires c !in s
    ensures Replace(s, c, text) == s
  {
    if s != "" {
      ReplaceAbsent(s[1..], c, text);
    }
  }

  lemma ReplaceSingle(c: char, d: char, text: string)
    ensures Replace([c], d, text) == if c == d then text else [c]
  {
    assert [c][1..] == "" && Replace("", d, text) == "";
    assert text + "" == text;
  }

  lemma {:induction false} EscapeOneChar(c: char)
    ensures XmlEscape([c]) == EscapedChar(c)
  {
    hide Replace;
    ReplaceSingle(c, '&', "&amp;");
    ReplaceSingle(c, '<', "&lt;");
    ReplaceSingle(c, '>', "&gt;");
    ReplaceAbsent("&amp;", '<', "&lt;");
    ReplaceAbsent("&amp;", '>', "&gt;");
    ReplaceAbsent("&lt;", '>', "&gt;");
  }

  /** The three replacements in sequence escape every character on its own. */
  lemma {:induction false} EscapesCharByChar(s: string)
    ensures XmlEscape(s) == EscapedChars(s)
  {
    if s != "" {
      EscapesCharByChar(s[1..]);
      EscapeOneChar(s[0]);
      assert s == [s[0]] + s[1..];
      ReplaceConcat([s[0]], s[1..], '&', "&amp;");
      var a, b := Replace([s[0]], '&', "&amp;"), Replace(s[1..], '&', "&amp;");
      ReplaceConcat(a, b, '<', "&lt;");
      ReplaceConcat(Replace(a, '<', "&lt;"), Replace(b, '<', "&lt;"), '>', "&gt;");
    }
  }

  lemma {:induction false} UnescapeOne(c: char, rest: string)
    ensures Unescape(EscapedChar(c) + rest) == [c] + Unescape(rest)
  {
    var s := EscapedChar(c) + rest;
    assert s[|EscapedChar(c)|..] == rest;
    assert s[0] == EscapedChar(c)[0];
    if c == '<' || c == '>' {
      assert s[1] == EscapedChar(c)[1] && s[..4] == EscapedChar(c);
      assert "&amp;"[1] == 'a';
      assert !StartsWith(s, "&amp;") by { assert |s| >= 5 ==> s[..5][1] == s[1]; }
      if c == '>' {
        assert "&lt;"[1] == 'l' && s[..4][1] == 'g';
      }
    } else if c == '&' {
      assert s[..5] == "&amp;";
    } else {
      assert |s| >= 5 ==> s[..5][0] == c;
      assert |s| >= 4 ==> s[..4][0] == c;
      assert "&amp;"[0] == '&' && "&lt;"[0] == '&' && "&gt;"[0] == '&';
    }
  }

  /** Unescaping inverts the escape, and escaped text holds no raw markup (section 2.4 of XML 1.0). */
  lemma {:induction false} UnescapeInvertsEscape(s: string)
    ensures Unescape(XmlEscape(s)) == s
    ensures '<' !in XmlEscape(s) && '>' !in XmlEscape(s)
  {
    EscapesCharByChar(s);
    if s != "" {
      EscapesCharByChar(s[1..]);
      UnescapeInvertsEscape(s[1..]);
      UnescapeOne(s[0], EscapedChars(s[1..]));
      assert [s[0]] + s[1..] == s;
    }
  }

  // ---- printed text reads back -------------------------------------------------------------------------

  predicate AllWhite(s: string) { forall i :: 0 <= i < |s| ==> IsWhite(s[i]) }

  lemma {:induction false} SkipsWhite(ws: string, t: string)
    requires AllWhite(ws)
    ensures SkipWhite(ws + t) == SkipWhite(t)
  {
    if ws == "" {
      assert ws + t == t;
    } else {
      SkipsWhite(ws[1..], t);
      assert (ws + t)[1..] == ws[1..] + t;
    }
  }

  lemma {:induction false} UntilFirst(front: string, c: char, rest: string)
    requires c !in front
    ensures Until(front + ([c] + rest), c) == Cut(front, [c] + rest)
  {
    if front == "" {
      assert front + ([c] + rest) == [c] + rest;
    } else {
      UntilFirst(front[1..], c, rest);
      assert (front + ([c] + rest))[1..] == front[1..] + ([c] + rest);
      assert [front[0]] + front[1..] == front;
    }
  }

  /** `<name>` and what follows it. */
  function Tagged(name: string, rest: string): string { "<" + (name + (">" + rest)) }

  lemma {:induction false} ReadsTag(ws: string, name: string, rest: string)
    requires AllWhite(ws) && '>' !in name
    ensures ReadTag(SkipWhite(ws + Tagged(name, rest))) == Tag(name, rest)
  {
    SkipsWhite(ws, Tagged(name, rest));
    var s := Tagged(name, rest);
    assert s[0] == '<' && s[1..] == name + ([">"[0]] + rest);
    UntilFirst(name, '>', rest);
    assert (">" + rest)[1..] == rest;
  }

  lemma {:induction false} ReadsContent(raw: string, close: string, rest: string)
    requires '<' !in raw && '>' !in close
    ensures ReadContent(raw + Tagged(close, rest), close) == Tag(raw, rest)
  {
    UntilFirst(raw, '<', close + (">" + rest));
    assert Tagged(close, rest) == ['<'] + (close + (">" + rest));
    ReadsTag("", close, rest);
    assert "" + Tagged(close, rest) == Tagged(close, rest);
    assert SkipWhite(Tagged(close, rest)) == Tagged(close, rest);
  }

  lemma {:induction false} ParsesInt(n: int)
    ensures ParseInt(PrintInt(n)) == JustInt(n) && '<' !in PrintInt(n)
  {
    var m := if n < 0 then -n else n;
    Decimal.ParseOfPrint(m);
    if n < 0 {
      assert PrintInt(n)[1..] == Decimal.Print(m);
    }
  }

  /** The name in the opening tag of a printed value. */
  function OpenName(v: Value): string {
    match v
    case Bool(b) => if b then "true/" else "false/"
    case Int(_) => "integer"
    case Str(_) => "string"
    case Arr(items) => if items == [] then "array/" else "array"
    case Dict(_) => "dict"
    case Unsupported => ""
  }

  lemma OpenNamesAreTags(v: Value)
    ensures '>' !in OpenName(v) && OpenName(v) != "/array" && OpenName(v) != "key" && OpenName(v) != "/dict"
  {
    assert "/array"[0] == '/' && "/dict"[0] == '/';
    assert OpenName(v) != "" ==> OpenName(v)[0] != '/';
  }

  function ArrayBody(texts: seq<string>, pad: string): string { "\n" + (Lines(texts) + (pad + "</array>")) }
  function DictBody(texts: seq<string>, pad: string): string { "\n" + (Lines(texts) + (pad + "</dict>")) }

  /** What a printed value shows after its opening tag. */
  function AfterOpen(v: Value, indent: nat): string {
    match v
    case Bool(_) => ""
    case Int(n) => PrintInt(n) + "</integer>"
    case Str(s) => XmlEscape(s) + "</string>"
    case Arr(items) =>
      var printed := PrintItems(items, indent + 1);
      if items == [] || printed.ThrowsAll? then "" else ArrayBody(printed.texts, Pad(indent))
    case Dict(entries) =>
      var printed := PrintEntries(entries, indent);
      if printed.ThrowsAll? then "" else DictBody(printed.texts, Pad(indent))
    case Unsupported => ""
  }

  lemma Frame(pad: string, open: string, joined: string, close: string, name: string)
    requires open == "<" + (name + (">" + "\n"))
    ensures pad + open + joined + "\n" + pad + close == pad + Tagged(name, "\n" + ((joined + "\n") + (pad + close)))
  {
    assert open + (joined + ("\n" + (pad + close))) == Tagged(name, "\n" + ((joined + "\n") + (pad + close)));
  }

  lemma Leaf(pad: string, open: string, inside: string, close: string, name: string)
    requires open == "<" + (name + ">")
    ensures pad + open + inside + close == pad + Tagged(name, inside + close)
  {
    assert open + (inside + close) == Tagged(name, inside + close);
  }

  lemma {:induction false} PrintedShape(v: Value, indent: nat)
    requires PlistValue(v, indent).Text?
    ensures PlistValue(v, indent).text == Pad(indent) + Tagged(OpenName(v), AfterOpen(v, indent))
  {
    hide Pad, Tagged, Join, XmlEscape, PrintInt, Lines;
    var pad := Pad(indent);
    match v
    case Bool(b) =>
      BoolShape(pad, b);
    case Int(n) =>
      Leaf(pad, "<integer>", PrintInt(n), "</integer>", "integer");
    case Str(s) =>
      Leaf(pad, "<string>", XmlEscape(s), "</string>", "string");
    case Arr(items) =>
      if items == [] {
        Leaf(pad, "<array/>", "", "", "array/");
        assert pad + "<array/>" + "" + "" == pad + "<array/>" && "" + "" == "";
      } else {
        var texts := PrintItems(items, indent + 1).texts;
        JoinNonEmpty(texts);
        Frame(pad, "<array>\n", Join(texts, "\n"), "</array>", "array");
      }
    case Dict(entries) =>
      var texts := PrintEntries(entries, indent).texts;
      JoinNonEmpty(texts);
      Frame(pad, "<dict>\n", Join(texts, "\n"), "</dict>", "dict");
    case Unsupported =>
  }

  lemma BoolShape(pad: string, b: bool)
    ensures pad + "<" + (if b then "true" else "false") + "/>" == pad + Tagged(if b then "true/" else "false/", "")
  {
    if b {
      assert pad + "<" + "true" + "/>" == pad + Tagged("true/", "");
    } else {
      assert pad + "<" + "false" + "/>" == pad + Tagged("false/", "");
    }
  }

  lemma {:induction false} JoinNonEmpty(texts: seq<string>)
    requires texts != []
    ensures Join(texts, "\n") + "\n" == Lines(texts)
  {
    JoinIsLines(texts);
  }

  lemma PadIsWhite(indent: nat)
    ensures AllWhite(Pad(indent)) && AllWhite("\n" + Pad(indent)) && AllWhite("\n") && AllWhite("")
    ensures AllWhite("\n" + (Pad(indent) + "\t"))
  {
  }

  lemma {:induction false} IntReadsBack(n: int, rest: string)
    ensures ReadBody("integer", PrintInt(n) + "</integer>" + rest) == Done(Int(n), rest)
  {
    hide ReadContent, ParseInt, PrintInt;
    ParsesInt(n);
    assert PrintInt(n) + "</integer>" + rest == PrintInt(n) + Tagged("/integer", rest);
    ReadsContent(PrintInt(n), "/integer", rest);
  }

  lemma {:induction false} StrReadsBack(s: string, rest: string)
    ensures ReadBody("string", XmlEscape(s) + "</string>" + rest) == Done(Str(s), rest)
  {
    hide ReadContent, XmlEscape, Unescape;
    UnescapeInvertsEscape(s);
    assert XmlEscape(s) + "</string>" + rest == XmlEscape(s) + Tagged("/string", rest);
    ReadsContent(XmlEscape(s), "/string", rest);
  }

  lemma ClosingTag(head: string, pad: string, close: string, name: string, rest: string)
    requires close == "<" + (name + ">")
    ensures "\n" + (head + (pad + close)) + rest == "\n" + (head + (pad + Tagged(name, rest)))
  {
    assert close + rest == Tagged(name, rest);
    assert "\n" + (head + (pad + close)) + rest == "\n" + (head + (pad + (close + rest)));
  }

  /** After its opening tag, a printed value reads back as itself, up to whatever follows. */
  lemma {:induction false} BodyReadsBack(v: Value, indent: nat, rest: string)
    requires PlistValue(v, indent).Text?
    ensures ReadBody(OpenName(v), AfterOpen(v, indent) + rest) == Done(v, rest)
    decreases v, 0
  {
    hide ReadContent, ReadItems, ReadEntries, Lines, Pad, XmlEscape, PrintInt, Tagged;
    match v
    case Bool(_) =>
      assert "" + rest == rest;
    case Int(n) =>
      IntReadsBack(n, rest);
    case Str(s) =>
      StrReadsBack(s, rest);
    case Arr(items) =>
      if items == [] {
        assert "" + rest == rest;
      } else {
        PadIsWhite(indent);
        ClosingTag(Lines(PrintItems(items, indent + 1).texts), Pad(indent), "</array>", "/array", rest);
        ItemsReadBack(items, indent + 1, Pad(indent), rest);
      }
    case Dict(entries) =>
      ClosingTag(Lines(PrintEntries(entries, indent).texts), Pad(indent), "</dict>", "/dict", rest);
      EntriesReadBack(entries, indent, rest);
  }

  lemma FirstLine(pad: string, name: string, after: string, tail: string, closing: string)
    ensures "\n" + (((pad + Tagged(name, after)) + "\n" + tail) + closing)
         == ("\n" + pad) + Tagged(name, after + ("\n" + (tail + closing)))
  {
    assert Tagged(name, after) + ("\n" + (tail + closing)) == Tagged(name, after + ("\n" + (tail + closing)));
  }

  lemma {:induction false} ItemsReadBack(items: seq<Value>, indent: nat, pad: string, rest: string)
    requires PrintItems(items, indent).Texts? && AllWhite(pad)
    ensures ReadItems("\n" + (Lines(PrintItems(items, indent).texts) + (pad + Tagged("/array", rest)))) == Items(items, rest)
    decreases items, 1
  {
    hide Pad, Tagged, ReadTag, SkipWhite, ReadBody, PlistValue, AfterOpen, OpenName;
    var closing := pad + Tagged("/array", rest);
    var texts := PrintItems(items, indent).texts;
    if items == [] {
      assert "\n" + (Lines(texts) + closing) == ("\n" + pad) + Tagged("/array", rest);
      ReadsTag("\n" + pad, "/array", rest);
    } else {
      var v, after := items[0], AfterOpen(items[0], indent);
      var more := "\n" + (Lines(texts[1..]) + closing);
      PrintedShape(v, indent);
      PadIsWhite(indent);
      OpenNamesAreTags(v);
      FirstLine(Pad(indent), OpenName(v), after, Lines(texts[1..]), closing);
      ReadsTag("\n" + Pad(indent), OpenName(v), after + more);
      BodyReadsBack(v, indent, more);
      ItemsReadBack(items[1..], indent, pad, rest);
      assert [v] + items[1..] == items;
    }
  }

  lemma KeyLine(pad: string, key: string, inner: string, name: string, after: string, tail: string, closing: string)
    ensures "\n" + (((pad + "\t<key>" + key + "</key>\n" + (inner + Tagged(name, after))) + "\n" + tail) + closing)
         == ("\n" + (pad + "\t")) + Tagged("key", key + Tagged("/key", ("\n" + inner) + Tagged(name, after + ("\n" + (tail + closing)))))
  {
    var more := "\n" + (tail + closing);
    var last, next := inner + Tagged(name, after), inner + Tagged(name, after + more);
    hide Tagged;
    TaggedThen(inner, name, after, more);
    CloseKey(next);
    OpenKey(key + ("</key>\n" + next));
    assert ("\n" + inner) + Tagged(name, after + more) == "\n" + next;
    Regroup(pad, key, last, more);
    assert "\n" + (((pad + "\t<key>" + key + "</key>\n" + last) + "\n" + tail) + closing)
        == "\n" + ((pad + "\t<key>" + key + "</key>\n" + last) + more);
  }

  lemma TaggedThen(inner: string, name: string, after: string, more: string)
    ensures (inner + Tagged(name, after)) + more == inner + Tagged(name, after + more)
  {
    assert Tagged(name, after) + more == Tagged(name, after + more);
  }

  lemma CloseKey(next: string)
    ensures "</key>\n" + next == Tagged("/key", "\n" + next)
  {
  }

  lemma OpenKey(rest: string)
    ensures "\t<key>" + rest == "\t" + Tagged("key", rest)
  {
  }

  lemma Regroup(pad: string, key: string, last: string, more: string)
    ensures "\n" + ((pad + "\t<key>" + key + "</key>\n" + last) + more)
         == "\n" + (pad + ("\t<key>" + (key + ("</key>\n" + (last + more)))))
    ensures "\n" + (pad + ("\t" + Tagged("key", key + ("</key>\n" + (last + more)))))
         == ("\n" + (pad + "\t")) + Tagged("key", key + ("</key>\n" + (last + more)))
  {
    hide Tagged;
  }

  lemma {:induction false} EntriesReadBack(entries: seq<Entry>, indent: nat, rest: string)
    requires PrintEntries(entries, indent).Texts?
    ensures ReadEntries("\n" + (Lines(PrintEntries(entries, indent).texts) + (Pad(indent) + Tagged("/dict", rest))))
         == Entries(entries, rest)
    decreases entries, 1
  {
    hide Pad, Tagged, ReadTag, SkipWhite, ReadBody, ReadContent, PlistValue, AfterOpen, OpenName, XmlEscape, Unescape;
    var pad := Pad(indent);
    var closing := pad + Tagged("/dict", rest);
    var texts := PrintEntries(entries, indent).texts;
    PadIsWhite(indent);
    PadIsWhite(indent + 1);
    if entries == [] {
      assert "\n" + (Lines(texts) + closing) == ("\n" + pad) + Tagged("/dict", rest);
      ReadsTag("\n" + pad, "/dict", rest);
    } else {
      var e := entries[0];
      var key, name, after := XmlEscape(e.key), OpenName(e.value), AfterOpen(e.value, indent + 1);
      var more := "\n" + (Lines(texts[1..]) + closing);
      PrintedShape(e.value, indent + 1);
      OpenNamesAreTags(e.value);
      var value := ("\n" + Pad(indent + 1)) + Tagged(name, after + more);
      KeyLine(pad, key, Pad(indent + 1), name, after, Lines(texts[1..]), closing);
      ReadsTag("\n" + (pad + "\t"), "key", key + Tagged("/key", value));
      UnescapeInvertsEscape(e.key);
      ReadsContent(key, "/key", value);
      ReadsTag("\n" + Pad(indent + 1), name, after + more);
      BodyReadsBack(e.value, indent + 1, more);
      EntriesReadBack(entries[1..], indent, rest);
      assert [e] + entries[1..] == entries;
    }
  }

  /** At any indent and before any text, a printed value reads back as exactly that value. */
  lemma {:induction false} ValueRoundTrip(v: Value, indent: nat, rest: string)
    requires PlistValue(v, indent).Text?
    ensures ReadValue(PlistValue(v, indent).text + rest) == Done(v, rest)
  {
    PrintedShape(v, indent);
    PadIsWhite(indent);
    OpenNamesAreTags(v);
    var after := AfterOpen(v, indent);
    assert PlistValue(v, indent).text + rest == Pad(indent) + Tagged(OpenName(v), after + rest);
    ReadsTag(Pad(indent), OpenName(v), after + rest);
    BodyReadsBack(v, indent, rest);
  }

  /** The writer throws exactly on trees with an empty dict or an unsupported value somewhere. */
  lemma {:induction false} ThrowsIffNotPrintable(v: Value, indent: nat)
    ensures PlistValue(v, indent).Text? <==> Printable(v)
    decreases v, 0
  {
    match v
    case Arr(items) =>
      ItemsThrow(items, indent + 1);
    case Dict(entries) =>
      EntriesThrow(entries, indent);
    case _ =>
  }

  lemma {:induction false} ItemsThrow(items: seq<Value>, indent: nat)
    ensures PrintItems(items, indent).Texts? <==> forall k :: 0 <= k < |items| ==> Printable(items[k])
    decreases items, 1
  {
    if items != [] {
      ThrowsIffNotPrintable(items[0], indent);
      ItemsThrow(items[1..], indent);
      assert forall k :: 1 <= k < |items| ==> items[k] == items[1..][k - 1];
    }
  }

  lemma {:induction false} EntriesThrow(entries: seq<Entry>, indent: nat)
    ensures PrintEntries(entries, indent).Texts? <==> forall k :: 0 <= k < |entries| ==> Printable(entries[k].value)
    decreases entries, 1
  {
    if entries != [] {
      ThrowsIffNotPrintable(entries[0].value, indent + 1);
      EntriesThrow(entries[1..], indent);
      assert forall k :: 1 <= k < |entries| ==> entries[k] == entries[1..][k - 1];
    }
  }
}
