/** The whole property-list document: line ends, the round trip, and the `",` check. */
module PlistDocument {
  import opened Text
  import opened Plist
  import Decimal

  // ---- what an XML reader does to carriage returns ----------------------------------------------

  function NormalizeTree(v: Value): Value
    decreases v, 0
  {
    match v
    case Str(s) => Str(Normalize(s))
    case Arr(items) => Arr(NormalizeItems(items))
    case Dict(entries) => Dict(NormalizeEntries(entries))
    case _ => v
  }

  function NormalizeItems(items: seq<Value>): (r: seq<Value>)
    ensures |r| == |items|
    decreases items, 1
  {
    if items == [] then [] else [NormalizeTree(items[0])] + NormalizeItems(items[1..])
  }

  function NormalizeEntries(entries: seq<Entry>): (r: seq<Entry>)
    ensures |r| == |entries|
    decreases entries, 1
  {
    if entries == [] then []
    else [Entry(Normalize(entries[0].key), NormalizeTree(entries[0].value))] + NormalizeEntries(entries[1..])
  }

  /** No carriage return in any string or key. */
  predicate NoCr(v: Value) {
    match v
    case Str(s) => '\r' !in s
    case Arr(items) => forall k :: 0 <= k < |items| ==> NoCr(items[k])
    case Dict(entries) => forall k :: 0 <= k < |entries| ==> '\r' !in entries[k].key && NoCr(entries[k].value)
    case _ => true
  }

  predicate EndsClean(s: string) { s == "" || s[|s| - 1] != '\r' }

  lemma {:induction false} NormalizeConcat(a: string, b: string)
    requires EndsClean(a) || b == "" || b[0] != '\n'
    ensures Normalize(a + b) == Normalize(a) + Normalize(b)
    decreases |a|
  {
    hide Normalize;
    if a == "" {
      NothingFirst(b);
    } else if a[0] == '\r' && |a| > 1 && a[1] == '\n' {
      NormalizeConcat(a[2..], b);
      CrLfFirst(a[2..]);
      CrLfFirst(a[2..] + b);
      assert a == "\r\n" + a[2..] && a + b == "\r\n" + (a[2..] + b);
    } else {
      NormalizeConcat(a[1..], b);
      OtherFirst(a[0], a[1..]);
      OtherFirst(a[0], a[1..] + b);
      assert a == [a[0]] + a[1..] && a + b == [a[0]] + (a[1..] + b);
    }
  }

  lemma NothingFirst(b: string)
    ensures Normalize("" + b) == Normalize("") + Normalize(b)
  {
    assert "" + b == b;
  }

  lemma CrLfFirst(s: string)
    ensures Normalize("\r\n" + s) == "\n" + Normalize(s)
  {
    assert ("\r\n" + s)[2..] == s;
  }

  lemma OtherFirst(c: char, s: string)
    requires c != '\r' || s == "" || s[0] != '\n'
    ensures Normalize([c] + s) == (if c == '\r' then "\n" else [c]) + Normalize(s)
  {
    assert ([c] + s)[1..] == s;
  }

  lemma {:induction false} NormalizeIdentity(s: string)
    ensures '\r' !in Normalize(s)
    ensures Normalize(s) == s <==> '\r' !in s
    decreases |s|
  {
    if s != "" {
      if s[0] == '\r' {
        NormalizeIdentity(if |s| > 1 && s[1] == '\n' then s[2..] else s[1..]);
        assert Normalize(s)[0] == '\n';
      } else {
        NormalizeIdentity(s[1..]);
        assert s == [s[0]] + s[1..];
        assert Normalize(s)[1..] == Normalize(s[1..]);
      }
    }
  }

  lemma {:induction false} NormalizeEscaped(s: string)
    ensures Normalize(EscapedChars(s)) == EscapedChars(Normalize(s))
    decreases |s|
  {
    if s != "" {
      hide Normalize, EscapedChars, EscapedChar;
      if s[0] == '\r' && |s| > 1 && s[1] == '\n' {
        var t := s[2..];
        NormalizeEscaped(t);
        assert s == "\r\n" + t && s == "\r" + ("\n" + t);
        EscapedFirst('\r', "\n" + t);
        EscapedFirst('\n', t);
        CrLfFirst(t);
        CrLfFirst(EscapedChars(t));
        assert "\r" + ("\n" + EscapedChars(t)) == "\r\n" + EscapedChars(t);
        EscapedFirst('\n', Normalize(t));
      } else {
        var c, t := s[0], s[1..];
        NormalizeEscaped(t);
        assert s == [c] + t;
        EscapedFirst(c, t);
        EscapedHead(t);
        OtherFirst(c, t);
        EscapedFirst(if c == '\r' then '\n' else c, Normalize(t));
        if c == '\r' {
          PlainChars();
          OtherFirst(c, EscapedChars(t));
        } else {
          CharHasNoCr(c);
          CleanFront(EscapedChar(c), EscapedChars(t));
        }
      }
    }
  }

  lemma {:induction false} EscapedFirst(c: char, t: string)
    ensures EscapedChars([c] + t) == EscapedChar(c) + EscapedChars(t)
    ensures c == '\r' || c == '\n' ==> EscapedChar(c) == [c]
  {
    assert ([c] + t)[1..] == t;
  }

  lemma EscapedHead(t: string)
    ensures t != "" ==> EscapedChars(t) != "" && (EscapedChars(t)[0] == '\n' <==> t[0] == '\n')
    ensures t == "" ==> EscapedChars(t) == ""
  {
  }

  lemma PlainChars()
    ensures EscapedChar('\r') == "\r" && EscapedChar('\n') == "\n"
  {
  }

  lemma CharHasNoCr(c: char)
    requires c != '\r'
    ensures '\r' !in EscapedChar(c)
  {
  }

  /** A piece without carriage returns in front of other text. */
  lemma {:induction false} CleanFront(a: string, b: string)
    requires '\r' !in a
    ensures Normalize(a + b) == a + Normalize(b)
  {
    NormalizeIdentity(a);
    NormalizeConcat(a, b);
  }

  /** Escaped text in front of markup. */
  lemma {:induction false} EscapedFront(s: string, b: string)
    requires b != "" && b[0] == '<'
    ensures Normalize(XmlEscape(s) + b) == XmlEscape(Normalize(s)) + Normalize(b)
  {
    EscapesCharByChar(s);
    EscapesCharByChar(Normalize(s));
    NormalizeEscaped(s);
    NormalizeConcat(XmlEscape(s), b);
  }

  lemma PadHasNoCr(indent: nat)
    ensures '\r' !in Pad(indent)
  {
  }

  lemma OpenNameHasNoCr(v: Value)
    ensures '\r' !in OpenName(v) && OpenName(NormalizeTree(v)) == OpenName(v)
  {
  }

  predicate EndsWithTag(s: string) { s != "" && s[|s| - 1] == '>' }

  /** Normalising a printed value gives the print of the normalised value. */
  lemma {:induction false} PrintNormalized(v: Value, indent: nat)
    requires PlistValue(v, indent).Text?
    ensures PlistValue(NormalizeTree(v), indent) == Text(Normalize(PlistValue(v, indent).text))
    ensures EndsWithTag(PlistValue(v, indent).text)
    decreases v, 2
  {
    hide XmlEscape, Pad, PrintInt, Normalize, Tagged, PlistValue, AfterOpen, OpenName, NormalizeTree;
    NormalizedPrints(v, indent);
    PrintedShape(v, indent);
    PrintedShape(NormalizeTree(v), indent);
    AfterNormalized(v, indent);
    OpenNameHasNoCr(v);
    PadHasNoCr(indent);
    TagNormalized(Pad(indent), OpenName(v), AfterOpen(v, indent));
  }

  lemma {:induction false} TagNormalized(pad: string, name: string, after: string)
    requires '\r' !in pad && '\r' !in name && (after == "" || EndsWithTag(after))
    ensures Normalize(pad + Tagged(name, after)) == pad + Tagged(name, Normalize(after))
    ensures EndsWithTag(pad + Tagged(name, after))
  {
    hide Normalize;
    var front := pad + ("<" + (name + ">"));
    assert pad + Tagged(name, after) == front + after;
    assert pad + Tagged(name, Normalize(after)) == front + Normalize(after);
    CleanFront(front, after);
  }

  lemma {:induction false} NormalizedPrints(v: Value, indent: nat)
    requires PlistValue(v, indent).Text?
    ensures PlistValue(NormalizeTree(v), indent).Text?
    decreases v, 0
  {
    ThrowsIffNotPrintable(v, indent);
    ThrowsIffNotPrintable(NormalizeTree(v), indent);
    PrintableNormalized(v);
  }

  lemma {:induction false} PrintableNormalized(v: Value)
    ensures Printable(NormalizeTree(v)) == Printable(v)
    decreases v, 0
  {
    match v
    case Arr(items) =>
      forall k | 0 <= k < |items| ensures NormalizeItems(items)[k] == NormalizeTree(items[k])
                                  ensures Printable(NormalizeTree(items[k])) == Printable(items[k]) {
        ItemAt(items, k);
        PrintableNormalized(items[k]);
      }
    case Dict(entries) =>
      forall k | 0 <= k < |entries|
        ensures NormalizeEntries(entries)[k].value == NormalizeTree(entries[k].value)
        ensures Printable(NormalizeTree(entries[k].value)) == Printable(entries[k].value)
      {
        EntryAt(entries, k);
        PrintableNormalized(entries[k].value);
      }
    case _ =>
  }

  lemma {:induction false} ItemAt(items: seq<Value>, k: nat)
    requires k < |items|
    ensures NormalizeItems(items)[k] == NormalizeTree(items[k])
    decreases |items|
  {
    if k > 0 { ItemAt(items[1..], k - 1); }
  }

  lemma {:induction false} EntryAt(entries: seq<Entry>, k: nat)
    requires k < |entries|
    ensures NormalizeEntries(entries)[k] == Entry(Normalize(entries[k].key), NormalizeTree(entries[k].value))
    decreases |entries|
  {
    if k > 0 { EntryAt(entries[1..], k - 1); }
  }

  lemma {:induction false} AfterNormalized(v: Value, indent: nat)
    requires PlistValue(v, indent).Text?
    ensures AfterOpen(NormalizeTree(v), indent) == Normalize(AfterOpen(v, indent))
    ensures AfterOpen(v, indent) == "" || EndsWithTag(AfterOpen(v, indent))
    decreases v, 1
  {
    hide XmlEscape, Pad, PrintInt, Lines, NormalForms, Normalize;
    NormalizeIdentity("");
    match v
    case Int(n) =>
      IntNormalized(n);
    case Str(s) =>
      StrNormalized(s);
    case Arr(items) =>
      if items != [] {
        ItemsNormalized(items, indent + 1);
        FrameNormalized(PrintItems(items, indent + 1).texts, PrintItems(NormalizeItems(items), indent + 1).texts,
                        Pad(indent), "</array>");
        PadHasNoCr(indent);
      }
    case Dict(entries) =>
      EntriesNormalized(entries, indent);
      DictFramed(entries, indent);
    case _ =>
  }

  lemma {:induction false} DictFramed(entries: seq<Entry>, indent: nat)
    requires PrintEntries(entries, indent).Texts? && PrintEntries(NormalizeEntries(entries), indent).Texts?
    requires NormalForms(PrintEntries(entries, indent).texts, PrintEntries(NormalizeEntries(entries), indent).texts)
    ensures AfterOpen(Dict(NormalizeEntries(entries)), indent) == Normalize(AfterOpen(Dict(entries), indent))
    ensures EndsWithTag(AfterOpen(Dict(entries), indent))
  {
    hide PrintEntries, NormalizeEntries, Pad, Lines, NormalForms, Normalize;
    FrameNormalized(PrintEntries(entries, indent).texts, PrintEntries(NormalizeEntries(entries), indent).texts,
                    Pad(indent), "</dict>");
    PadHasNoCr(indent);
  }

  lemma {:induction false} IntNormalized(n: int)
    ensures Normalize(PrintInt(n) + "</integer>") == PrintInt(n) + "</integer>"
    ensures EndsWithTag(PrintInt(n) + "</integer>")
  {
    hide PrintInt;
    IntHasNoCr(n);
    NormalizeIdentity(PrintInt(n) + "</integer>");
  }

  lemma {:induction false} StrNormalized(s: string)
    ensures Normalize(XmlEscape(s) + "</string>") == XmlEscape(Normalize(s)) + "</string>"
    ensures EndsWithTag(XmlEscape(s) + "</string>")
  {
    hide XmlEscape;
    NormalizeIdentity("</string>");
    EscapedFront(s, "</string>");
  }

  lemma IntHasNoCr(n: int)
    ensures '\r' !in PrintInt(n)
  {
    if n < 0 {
      DigitsHaveNoCr(Decimal.Print(-n));
    } else {
      DigitsHaveNoCr(Decimal.Print(n));
    }
  }

  lemma DigitsHaveNoCr(s: string)
    requires Decimal.AllDigits(s)
    ensures '\r' !in s && '"' !in s && ',' !in s
  {
  }

  /** Texts that end in a tag, and their normalised forms. */
  ghost predicate NormalForms(texts: seq<string>, normals: seq<string>) {
    && |normals| == |texts|
    && forall k :: 0 <= k < |texts| ==> EndsWithTag(texts[k]) && normals[k] == Normalize(texts[k])
  }

  lemma {:induction false} LinesNormalized(texts: seq<string>, normals: seq<string>, tail: string)
    requires NormalForms(texts, normals)
    ensures Normalize(Lines(texts) + tail) == Lines(normals) + Normalize(tail)
  {
    hide Normalize;
    if texts == [] {
      assert Lines(texts) + tail == tail && Lines(normals) + Normalize(tail) == Normalize(tail);
    } else {
      LinesNormalized(texts[1..], normals[1..], tail);
      var rest := Lines(texts[1..]) + tail;
      assert Lines(texts) + tail == texts[0] + ("\n" + rest);
      NormalizeConcat(texts[0], "\n" + rest);
      CleanFront("\n", rest);
      assert Lines(normals) + Normalize(tail) == normals[0] + ("\n" + (Lines(normals[1..]) + Normalize(tail)));
    }
  }

  lemma {:induction false} FrameNormalized(texts: seq<string>, normals: seq<string>, pad: string, close: string)
    requires NormalForms(texts, normals)
    ensures '\r' !in pad && '\r' !in close ==>
              Normalize("\n" + (Lines(texts) + (pad + close))) == "\n" + (Lines(normals) + (pad + close))
  {
    if '\r' !in pad && '\r' !in close {
      NormalizeIdentity(pad + close);
      CleanFront("\n", Lines(texts) + (pad + close));
      LinesNormalized(texts, normals, pad + close);
    }
  }

  lemma {:induction false} ItemsNormalized(items: seq<Value>, indent: nat)
    requires PrintItems(items, indent).Texts?
    ensures PrintItems(NormalizeItems(items), indent).Texts?
    ensures NormalForms(PrintItems(items, indent).texts, PrintItems(NormalizeItems(items), indent).texts)
    decreases items, 3
  {
    hide PlistValue, Normalize, NormalizeTree, EndsWithTag;
    if items != [] {
      PrintNormalized(items[0], indent);
      ItemsNormalized(items[1..], indent);
      assert NormalizeItems(items)[1..] == NormalizeItems(items[1..]);
    }
  }

  lemma {:induction false} EntriesNormalized(entries: seq<Entry>, indent: nat)
    requires PrintEntries(entries, indent).Texts?
    ensures PrintEntries(NormalizeEntries(entries), indent).Texts?
    ensures NormalForms(PrintEntries(entries, indent).texts, PrintEntries(NormalizeEntries(entries), indent).texts)
    decreases entries, 3
  {
    hide PlistValue, Normalize, NormalizeTree, XmlEscape, Pad;
    if entries != [] {
      var e := entries[0];
      PrintNormalized(e.value, indent + 1);
      EntriesNormalized(entries[1..], indent);
      assert NormalizeEntries(entries)[1..] == NormalizeEntries(entries[1..]);
      PadHasNoCr(indent);
      KeyNormalized(Pad(indent), e.key, PlistValue(e.value, indent + 1).text);
    }
  }

  lemma {:induction false} KeyNormalized(pad: string, key: string, value: string)
    requires '\r' !in pad && EndsWithTag(value)
    ensures Normalize(pad + "\t<key>" + XmlEscape(key) + "</key>\n" + value)
         == pad + "\t<key>" + XmlEscape(Normalize(key)) + "</key>\n" + Normalize(value)
    ensures EndsWithTag(pad + "\t<key>" + XmlEscape(key) + "</key>\n" + value)
  {
    hide XmlEscape, Normalize;
    var front, back := pad + "\t<key>", "</key>\n" + value;
    assert pad + "\t<key>" + XmlEscape(key) + "</key>\n" + value == front + (XmlEscape(key) + back);
    CleanFront(front, XmlEscape(key) + back);
    EscapedFront(key, back);
    CleanFront("</key>\n", value);
    assert pad + "\t<key>" + XmlEscape(Normalize(key)) + "</key>\n" + Normalize(value)
        == front + (XmlEscape(Normalize(key)) + ("</key>\n" + Normalize(value)));
  }

  lemma {:induction false} NormalizeTreeIdentity(v: Value)
    ensures NormalizeTree(v) == v <==> NoCr(v)
    decreases v
  {
    match v
    case Str(s) =>
      NormalizeIdentity(s);
    case Arr(items) =>
      forall k | 0 <= k < |items|
        ensures NormalizeItems(items)[k] == NormalizeTree(items[k]) && (NormalizeTree(items[k]) == items[k] <==> NoCr(items[k]))
      {
        ItemAt(items, k);
        NormalizeTreeIdentity(items[k]);
      }
      assert NormalizeItems(items) == items <==> forall k :: 0 <= k < |items| ==> NormalizeItems(items)[k] == items[k];
    case Dict(entries) =>
      forall k | 0 <= k < |entries|
        ensures NormalizeEntries(entries)[k] == entries[k] <==> '\r' !in entries[k].key && NoCr(entries[k].value)
      {
        EntryAt(entries, k);
        NormalizeIdentity(entries[k].key);
        NormalizeTreeIdentity(entries[k].value);
      }
      assert NormalizeEntries(entries) == entries
        <==> forall k :: 0 <= k < |entries| ==> NormalizeEntries(entries)[k] == entries[k];
    case _ =>
  }

  // ---- the document ------------------------------------------------------------------------------------

  /** Reading the document of any printable tree gives the tree with its line ends normalised,
      which is the tree itself exactly when no string or key holds a carriage return. */
  lemma {:induction false} DocumentRoundTrip(v: Value)
    requires Printable(v)
    ensures ToPlist(v).Text? && ReadPlist(ToPlist(v).text) == Document(NormalizeTree(v))
    ensures ReadPlist(ToPlist(v).text) == Document(v) <==> NoCr(v)
  {
    hide ReadValue, PlistValue, Normalize, NormalizeTree, SkipWhite, ReadTag, Tagged;
    ThrowsIffNotPrintable(v, 0);
    PrintNormalized(v, 0);
    NormalizeTreeIdentity(v);
    var tail := "\n</plist>\n";
    var body := PlistValue(v, 0).text;
    HeaderIsPrologue();
    var doc := HEADER + body + tail;
    assert doc == HEADER + (body + tail);
    assert doc[|HEADER|..] == body + tail && doc[..|HEADER|] == HEADER;
    NormalizeConcat(body, tail);
    NormalizeIdentity(tail);
    ValueRoundTrip(NormalizeTree(v), 0, tail);
    TailCloses();
  }

  lemma TailCloses()
    ensures ReadTag(SkipWhite("\n</plist>\n")) == Tag("/plist", "\n") && SkipWhite("\n") == ""
  {
    hide ReadTag, SkipWhite;
    ReadsTag("\n", "/plist", "\n");
    assert "\n" + Tagged("/plist", "\n") == "\n</plist>\n";
    SkipsWhite("\n", "");
    assert "\n" + "" == "\n";
    NothingToSkip();
  }

  lemma NothingToSkip()
    ensures SkipWhite("") == ""
  {
  }

  /** Two trees without carriage returns never print alike. */
  lemma {:induction false} DocumentsAreDistinct(a: Value, b: Value)
    requires Printable(a) && Printable(b) && NoCr(a) && NoCr(b) && ToPlist(a) == ToPlist(b)
    ensures a == b
  {
    hide ReadPlist, ToPlist;
    DocumentRoundTrip(a);
    DocumentRoundTrip(b);
  }

  // ---- the quote-comma check ----------------------------------------------------------------------------

  predicate HasQuoteComma(s: string) {
    exists i :: 0 <= i < |s| - 1 && s[i] == '"' && s[i + 1] == ','
  }

  /** `assertNoQuoteComma` passes: it looks at string values, not at keys. */
  predicate PassesCheck(v: Value) {
    match v
    case Str(s) => !HasQuoteComma(s)
    case Arr(items) => forall k :: 0 <= k < |items| ==> PassesCheck(items[k])
    case Dict(entries) => forall k :: 0 <= k < |entries| ==> PassesCheck(entries[k].value)
    case _ => true
  }

  predicate KeysPass(v: Value) {
    match v
    case Arr(items) => forall k :: 0 <= k < |items| ==> KeysPass(items[k])
    case Dict(entries) => forall k :: 0 <= k < |entries| ==> !HasQuoteComma(entries[k].key) && KeysPass(entries[k].value)
    case _ => true
  }

  lemma {:induction false} QuoteCommaConcat(a: string, b: string)
    requires a == "" || b == "" || a[|a| - 1] != '"' || b[0] != ','
    ensures HasQuoteComma(a + b) <==> HasQuoteComma(a) || HasQuoteComma(b)
  {
    var s := a + b;
    if i :| 0 <= i < |a| - 1 && a[i] == '"' && a[i + 1] == ',' {
      assert s[i] == a[i] && s[i + 1] == a[i + 1];
    }
    if i :| 0 <= i < |b| - 1 && b[i] == '"' && b[i + 1] == ',' {
      assert s[|a| + i] == b[i] && s[|a| + i + 1] == b[i + 1];
    }
    if i :| 0 <= i < |s| - 1 && s[i] == '"' && s[i + 1] == ',' {
      if i + 1 < |a| {
        assert a[i] == '"' && a[i + 1] == ',';
      } else if i >= |a| {
        assert b[i - |a|] == '"' && b[i - |a| + 1] == ',';
      }
    }
  }

  lemma {:induction false} QuoteCommaEscaped(s: string)
    ensures HasQuoteComma(EscapedChars(s)) <==> HasQuoteComma(s)
    ensures s != "" ==> EscapedChars(s) != "" && (EscapedChars(s)[0] == ',' <==> s[0] == ',')
  {
    if s != "" {
      QuoteCommaEscaped(s[1..]);
      var rest := EscapedChars(s[1..]);
      assert s == [s[0]] + s[1..];
      SingleHasNone(s[0]);
      if s[0] == '"' && s[1..] != "" && s[1] == ',' {
        assert EscapedChars(s)[0] == '"' && EscapedChars(s)[1] == rest[0];
      } else {
        QuoteCommaConcat([s[0]], s[1..]);
        QuoteCommaConcat(EscapedChar(s[0]), rest);
      }
    }
  }

  lemma SingleHasNone(c: char)
    ensures !HasQuoteComma([c]) && !HasQuoteComma(EscapedChar(c))
    ensures c != '"' ==> EscapedChar(c)[|EscapedChar(c)| - 1] != '"'
  {
  }

  lemma {:induction false} NoneAround(front: string, s: string, back: string)
    requires '"' !in front && '"' !in back && back != "" && back[0] != ','
    ensures HasQuoteComma(front + (s + back)) <==> HasQuoteComma(s)
  {
    QuoteCommaConcat(s, back);
    QuoteCommaConcat(front, s + back);
  }

  lemma {:induction false} TagAround(pad: string, name: string, after: string)
    requires '"' !in pad && '"' !in name
    ensures HasQuoteComma(pad + Tagged(name, after)) <==> HasQuoteComma(after)
  {
    var front := pad + ("<" + (name + ">"));
    assert pad + Tagged(name, after) == front + after;
    QuoteCommaConcat(front, after);
  }

  lemma PadHasNoQuote(indent: nat)
    ensures '"' !in Pad(indent)
  {
  }

  lemma OpenNameHasNoQuote(v: Value)
    ensures '"' !in OpenName(v)
  {
  }

  /** The printed text holds `",` exactly when a string value or a key does: the check, which
      skips keys, guards the text exactly for trees whose keys are free of it. */
  lemma {:induction false} CheckGuardsTextUpToKeys(v: Value, indent: nat)
    requires PlistValue(v, indent).Text?
    ensures HasQuoteComma(PlistValue(v, indent).text) <==> !PassesCheck(v) || !KeysPass(v)
    decreases v, 1
  {
    hide PlistValue, AfterOpen, OpenName, Tagged, Pad, HasQuoteComma, PassesCheck, KeysPass;
    PrintedShape(v, indent);
    PadHasNoQuote(indent);
    OpenNameHasNoQuote(v);
    TagAround(Pad(indent), OpenName(v), AfterOpen(v, indent));
    AfterGuarded(v, indent);
  }

  lemma {:induction false} AfterGuarded(v: Value, indent: nat)
    requires PlistValue(v, indent).Text?
    ensures HasQuoteComma(AfterOpen(v, indent)) <==> !PassesCheck(v) || !KeysPass(v)
    decreases v, 0
  {
    hide XmlEscape, Pad, PrintInt, Lines, HasQuoteComma;
    match v
    case Bool(_) =>
      NoQuoteNoPair("");
    case Int(n) =>
      IntHasNoQuote(n);
      NoQuoteNoPair(PrintInt(n) + "</integer>");
    case Str(s) =>
      EscapesCharByChar(s);
      QuoteCommaEscaped(s);
      assert "" + (XmlEscape(s) + "</string>") == XmlEscape(s) + "</string>";
      NoneAround("", XmlEscape(s), "</string>");
    case Arr(items) =>
      if items == [] {
        NoQuoteNoPair("");
      } else {
        ItemsGuarded(items, indent + 1, Pad(indent) + "</array>");
        PadHasNoQuote(indent);
      }
    case Dict(entries) =>
      EntriesGuarded(entries, indent, Pad(indent) + "</dict>");
      PadHasNoQuote(indent);
    case Unsupported =>
  }

  lemma NoQuoteNoPair(s: string)
    requires '"' !in s
    ensures !HasQuoteComma(s)
  {
  }

  lemma IntHasNoQuote(n: int)
    ensures '"' !in PrintInt(n)
  {
    if n < 0 {
      DigitsHaveNoCr(Decimal.Print(-n));
    } else {
      DigitsHaveNoCr(Decimal.Print(n));
    }
  }

  lemma {:induction false} OneMoreLine(line: string, tail: string, close: string)
    ensures HasQuoteComma("\n" + ((line + "\n" + tail) + close)) <==> HasQuoteComma(line) || HasQuoteComma("\n" + (tail + close))
  {
    var more := "\n" + (tail + close);
    assert "\n" + ((line + "\n" + tail) + close) == "\n" + (line + more);
    QuoteCommaConcat(line, more);
    NoQuoteNoPair("\n");
    QuoteCommaConcat("\n", line + more);
  }

  lemma {:induction false} ItemsGuarded(items: seq<Value>, indent: nat, close: string)
    requires PrintItems(items, indent).Texts?
    ensures '"' !in close ==>
              (HasQuoteComma("\n" + (Lines(PrintItems(items, indent).texts) + close))
               <==> exists k :: 0 <= k < |items| && (!PassesCheck(items[k]) || !KeysPass(items[k])))
    decreases items, 2
  {
    hide PlistValue, HasQuoteComma, PassesCheck, KeysPass;
    var texts := PrintItems(items, indent).texts;
    if items == [] {
      assert "\n" + (Lines(texts) + close) == "\n" + close;
      if '"' !in close {
        NoQuoteNoPair("\n" + close);
      }
    } else {
      CheckGuardsTextUpToKeys(items[0], indent);
      ItemsGuarded(items[1..], indent, close);
      OneMoreLine(texts[0], Lines(texts[1..]), close);
      assert forall k :: 1 <= k < |items| ==> items[k] == items[1..][k - 1];
      assert forall k :: 0 <= k < |items[1..]| ==> items[1..][k] == items[k + 1];
    }
  }

  lemma {:induction false} EntriesGuarded(entries: seq<Entry>, indent: nat, close: string)
    requires PrintEntries(entries, indent).Texts?
    ensures '"' !in close ==>
              (HasQuoteComma("\n" + (Lines(PrintEntries(entries, indent).texts) + close))
               <==> exists k :: 0 <= k < |entries|
                      && (!PassesCheck(entries[k].value) || HasQuoteComma(entries[k].key) || !KeysPass(entries[k].value)))
    decreases entries, 2
  {
    hide PlistValue, HasQuoteComma, PassesCheck, KeysPass, XmlEscape, Pad;
    var texts := PrintEntries(entries, indent).texts;
    if entries == [] {
      assert "\n" + (Lines(texts) + close) == "\n" + close;
      if '"' !in close {
        NoQuoteNoPair("\n" + close);
      }
    } else {
      var e := entries[0];
      CheckGuardsTextUpToKeys(e.value, indent + 1);
      KeyLineGuarded(Pad(indent), e.key, PlistValue(e.value, indent + 1).text);
      PadHasNoQuote(indent);
      EntriesGuarded(entries[1..], indent, close);
      OneMoreLine(texts[0], Lines(texts[1..]), close);
      assert forall k :: 1 <= k < |entries| ==> entries[k] == entries[1..][k - 1];
      assert forall k :: 0 <= k < |entries[1..]| ==> entries[1..][k] == entries[k + 1];
    }
  }

  lemma {:induction false} KeyLineGuarded(pad: string, key: string, value: string)
    ensures '"' !in pad ==>
              (HasQuoteComma(pad + "\t<key>" + XmlEscape(key) + "</key>\n" + value) <==> HasQuoteComma(key) || HasQuoteComma(value))
  {
    hide XmlEscape, HasQuoteComma;
    var front, back := pad + "\t<key>", "</key>\n" + value;
    assert pad + "\t<key>" + XmlEscape(key) + "</key>\n" + value == front + (XmlEscape(key) + back);
    EscapesCharByChar(key);
    QuoteCommaEscaped(key);
    if '"' !in pad {
      NoQuoteNoPair(front);
      NoQuoteNoPair("</key>\n");
      QuoteCommaConcat("</key>\n", value);
      QuoteCommaConcat(XmlEscape(key), back);
      QuoteCommaConcat(front, XmlEscape(key) + back);
    }
  }
}
