/**
 * XML tags in src/libhpxml.c: how far a tag reaches (count_tag), what is in it
 * (hpx_process_elem), and how it is printed (hpx_fprintf_tag).
 *
 * A tag is printed as <name a="v" b='w'> with a / before the end if it is a
 * single tag, as </name>, or as <?name a="v"?>. Values are printed between the
 * delimiters they were read with, and nothing in them is escaped.
 *
 * A bstring is a string and a position in it. Spans of characters (blanks, the
 * rest of a name, a value) are taken as far as they go.
 */
module HpXml {
  import opened Common

  datatype Attr = Attr(name: string, value: string, delim: char)

  datatype Type = Ill | Open | Single | Close | Literal | Att | Instr | Comment | CData

  /** hpx_tag_t. */
  datatype Tag = Tag(kind: Type, tag: string, attr: seq<Attr>)

  // ----- characters -----

  predicate IsAlpha(c: char) {
    'a' <= c <= 'z' || 'A' <= c <= 'Z'
  }

  predicate IsXml1Char(c: char) {
    IsAlpha(c) || c == '_' || c == ':'
  }

  predicate IsXmlChar(c: char) {
    IsAlpha(c) || '0' <= c <= '9' || c == '.' || c == '-' || c == '_' || c == ':'
  }

  /** isspace(): blank, tab, newline, vertical tab, form feed and carriage return. */
  predicate IsSpace(c: char) {
    c == ' ' || 9 as char <= c <= 13 as char
  }

  predicate IsQuote(c: char) {
    c == '"' || c == '\''
  }

  /** The classes in codes of ASCII: letters, underscore and colon, for a name also digits, dash and dot. */
  lemma CharClasses(c: char)
    ensures var n := c as int;
      && (IsXml1Char(c) <==> 65 <= n <= 90 || 97 <= n <= 122 || n == 95 || n == 58)
      && (IsXmlChar(c) <==> IsXml1Char(c) || 48 <= n <= 57 || n == 45 || n == 46)
      && (IsSpace(c) <==> 9 <= n <= 13 || n == 32)
      && (IsQuote(c) <==> n == 34 || n == 39)
  {
  }

  predicate LegalName(s: string) {
    s != [] && IsXml1Char(s[0]) && forall c :: c in s ==> IsXmlChar(c)
  }

  /** A value must not contain its own delimiter, nor a character that ends a string in C. */
  predicate LegalAttr(a: Attr) {
    LegalName(a.name) && IsQuote(a.delim) && a.delim !in a.value && '\0' !in a.value
  }

  // ----- scanning -----

  /** The first position from pos on whose character does not satisfy f. */
  function SpanEnd(s: string, pos: nat, f: char -> bool): (e: nat)
    requires pos <= |s|
    ensures pos <= e <= |s| && (forall k :: pos <= k < e ==> f(s[k])) && (e < |s| ==> !f(s[e]))
    decreases |s| - pos
  {
    if pos < |s| && f(s[pos]) then SpanEnd(s, pos + 1, f) else pos
  }

  lemma {:induction false} SpanEndIs(s: string, pos: nat, f: char -> bool, e: nat)
    requires pos <= e <= |s| && (forall k :: pos <= k < e ==> f(s[k])) && (e < |s| ==> !f(s[e]))
    ensures SpanEnd(s, pos, f) == e
    decreases e - pos
  {
    if pos < e {
      SpanEndIs(s, pos + 1, f, e);
    }
  }

  function Not(d: char): char -> bool {
    c => c != d
  }

  method Span(s: string, pos: nat, f: char -> bool) returns (e: nat)
    requires pos <= |s|
    ensures e == SpanEnd(s, pos, f)
  {
    e := pos;
    while e < |s| && f(s[e])
      invariant pos <= e <= |s| && SpanEnd(s, pos, f) == SpanEnd(s, e, f)
    {
      e := e + 1;
    }
  }

  // ----- attributes -----

  datatype Step = Stop(pos: nat) | Got(attr: Attr, pos: nat)

  /** One round of hpx_parse_attr_list(). */
  function ParseAttr(s: string, pos: nat): (r: Step)
    requires pos <= |s|
    ensures r.pos <= |s|
  {
    var p1 := SpanEnd(s, pos, IsSpace);
    if p1 == |s| || !IsXml1Char(s[p1]) then Stop(p1)
    else
      var p2 := SpanEnd(s, p1 + 1, IsXmlChar);
      var p3 := SpanEnd(s, p2, IsSpace);
      if p3 == |s| || s[p3] != '=' then Stop(p3)
      else if p3 + 1 == |s| then Stop(p3 + 1)
      else
        ParseValue(s, p3 + 1, s[p1..p2])
  }

  /** What follows the '='. */
  function ParseValue(s: string, pos: nat, name: string): (r: Step)
    requires pos <= |s|
    ensures r.pos <= |s|
  {
    var p4 := SpanEnd(s, pos, IsSpace);
    if p4 == |s| || !IsQuote(s[p4]) then Stop(p4)
    else if p4 + 1 == |s| then Stop(p4 + 1)
    else
      var p5 := SpanEnd(s, p4 + 1, Not(s[p4]));
      if p5 == |s| then Stop(p5) else Got(Attr(name, s[p4 + 1..p5], s[p4]), p5 + 1)
  }

  /** At most m attributes, and the position behind them. */
  function ParseAttrs(s: string, pos: nat, m: nat): (r: (seq<Attr>, nat))
    requires pos <= |s|
    ensures r.1 <= |s|
    decreases m
  {
    if m == 0 then ([], pos)
    else
      match ParseAttr(s, pos)
      case Stop(p) => ([], p)
      case Got(a, p) => var r := ParseAttrs(s, p, m - 1); ([a] + r.0, r.1)
  }

  /** One round of hpx_parse_attr_list(), with the cursor moving on. */
  method ParseOne(s: string, pos: nat) returns (r: Step)
    requires pos <= |s|
    ensures r == ParseAttr(s, pos)
  {
    hide SpanEnd, IsXml1Char, ParseValue;
    var b := Span(s, pos, IsSpace);
    if b == |s| || !IsXml1Char(s[b]) {
      return Stop(b);
    }
    var name := b;
    b := Span(s, b + 1, IsXmlChar);
    var nameEnd := b;
    b := Span(s, b, IsSpace);
    if b == |s| || s[b] != '=' {
      return Stop(b);
    }
    b := b + 1;
    if b == |s| {
      return Stop(b);
    }
    r := ParseOneValue(s, b, s[name..nameEnd]);
  }

  method ParseOneValue(s: string, pos: nat, name: string) returns (r: Step)
    requires pos <= |s|
    ensures r == ParseValue(s, pos, name)
  {
    hide SpanEnd, IsQuote;
    var b := Span(s, pos, IsSpace);
    if b == |s| || !IsQuote(s[b]) {
      return Stop(b);
    }
    var delim := s[b];
    b := b + 1;
    if b == |s| {
      return Stop(b);
    }
    var value := b;
    b := Span(s, b, Not(delim));
    if b == |s| {
      return Stop(b);
    }
    return Got(Attr(name, s[value..b], delim), b + 1);
  }

  /** hpx_parse_attr_list(): mattr is the number of attributes that there is room for. */
  method ParseAttrList(s: string, pos: nat, mattr: nat) returns (attr: seq<Attr>, b: nat)
    requires pos <= |s|
    ensures (attr, b) == ParseAttrs(s, pos, mattr)
  {
    hide ParseAttr;
    attr, b := [], pos;
    ghost var goal := ParseAttrs(s, pos, mattr);
    assert [] + goal.0 == goal.0;
    for n := 0 to mattr
      invariant n == |attr| && b <= |s|
      invariant goal == (attr + ParseAttrs(s, b, mattr - n).0, ParseAttrs(s, b, mattr - n).1)
    {
      var step := ParseOne(s, b);
      if step.Stop? {
        assert attr + [] == attr;
        b := step.pos;
        return;
      }
      assert attr + ([step.attr] + ParseAttrs(s, step.pos, mattr - n - 1).0) ==
        attr + [step.attr] + ParseAttrs(s, step.pos, mattr - n - 1).0;
      attr := attr + [step.attr];
      b := step.pos;
    }
    assert attr + [] == attr;
  }

  // ----- the syntax of an attribute -----

  /** The characters i .. j-1 are all the characters from i on that f holds of. */
  ghost predicate AllOf(s: string, i: nat, j: nat, f: char -> bool) {
    i <= j <= |s| && (forall k :: i <= k < j ==> f(s[k])) && (j < |s| ==> !f(s[j]))
  }

  /** Blanks up to i, and a name up to j. */
  ghost predicate NameOf(s: string, pos: nat, i: nat, j: nat) {
    AllOf(s, pos, i, IsSpace) && i < |s| && IsXml1Char(s[i]) && AllOf(s, i + 1, j, IsXmlChar)
  }

  /** And blanks, and '=' at k. */
  ghost predicate EqualsAt(s: string, pos: nat, i: nat, j: nat, k: nat) {
    NameOf(s, pos, i, j) && AllOf(s, j, k, IsSpace) && k < |s| && s[k] == '='
  }

  /** And blanks, and the opening delimiter at l. */
  ghost predicate DelimAt(s: string, pos: nat, i: nat, j: nat, k: nat, l: nat) {
    EqualsAt(s, pos, i, j, k) && AllOf(s, k + 1, l, IsSpace) && l < |s| && IsQuote(s[l])
  }

  /** And the value, which has all the characters up to the same delimiter at m. */
  ghost predicate IsValue(s: string, i: nat, j: nat, l: nat, m: nat, a: Attr)
    requires m < |s|
  {
    l < |s| && i <= j <= |s| && AllOf(s, l + 1, m, Not(s[l])) && a == Attr(s[i..j], s[l + 1..m], s[l])
  }

  /**
   * An attribute with all its parts, or the place where the text ends or has a character that does
   * not belong there.
   */
  ghost predicate Lexed(s: string, pos: nat, r: Step) {
    match r
    case Got(a, p) =>
      0 < p <= |s| && exists i: nat, j: nat, k: nat, l: nat ::
        DelimAt(s, pos, i, j, k, l) && IsValue(s, i, j, l, p - 1, a)
    case Stop(p) =>
      || (AllOf(s, pos, p, IsSpace) && (p < |s| ==> !IsXml1Char(s[p])))
      || (exists i: nat, j: nat :: NameOf(s, pos, i, j) && AllOf(s, j, p, IsSpace) && (p < |s| ==> s[p] != '='))
      || (exists i: nat, j: nat, k: nat ::
            EqualsAt(s, pos, i, j, k) && AllOf(s, k + 1, p, IsSpace) && (p < |s| ==> !IsQuote(s[p])))
      || (p == |s| && exists i: nat, j: nat, k: nat, l: nat ::
            DelimAt(s, pos, i, j, k, l) && AllOf(s, l + 1, p, Not(s[l])))
  }

  lemma SpanIsAll(s: string, pos: nat, f: char -> bool)
    requires pos <= |s|
    ensures AllOf(s, pos, SpanEnd(s, pos, f), f)
  {
  }

  lemma SpanWithin(s: string, pos: nat, f: char -> bool)
    requires pos <= |s|
    ensures pos <= SpanEnd(s, pos, f) <= |s|
  {
  }

  /** An attribute is recognised by its syntax, with blanks around its parts, and with the place where it is not. */
  lemma AttrLexed(s: string, pos: nat)
    requires pos <= |s|
    ensures Lexed(s, pos, ParseAttr(s, pos))
  {
    hide SpanEnd, AllOf, IsXml1Char, IsXmlChar, IsQuote, IsSpace;
    var i := SpanEnd(s, pos, IsSpace);
    SpanIsAll(s, pos, IsSpace);
    if i < |s| && IsXml1Char(s[i]) {
      var j := SpanEnd(s, i + 1, IsXmlChar);
      SpanIsAll(s, i + 1, IsXmlChar);
      var k := SpanEnd(s, j, IsSpace);
      SpanIsAll(s, j, IsSpace);
      assert NameOf(s, pos, i, j);
      if k < |s| && s[k] == '=' {
        assert EqualsAt(s, pos, i, j, k);
        ValueLexed(s, pos, i, j, k);
      }
    }
  }

  lemma ValueLexed(s: string, pos: nat, i: nat, j: nat, k: nat)
    requires EqualsAt(s, pos, i, j, k)
    ensures i <= j && Lexed(s, pos, if k + 1 == |s| then Stop(k + 1) else ParseValue(s, k + 1, s[i..j]))
  {
    hide SpanEnd, AllOf, IsQuote, EqualsAt;
    EqualsWhere(s, pos, i, j, k);
    var l := SpanEnd(s, k + 1, IsSpace);
    SpanIsAll(s, k + 1, IsSpace);
    if l < |s| && IsQuote(s[l]) {
      var m := SpanEnd(s, l + 1, Not(s[l]));
      SpanIsAll(s, l + 1, Not(s[l]));
      SpanWithin(s, l + 1, Not(s[l]));
      if m < |s| {
        assert IsValue(s, i, j, l, m, Attr(s[i..j], s[l + 1..m], s[l]));
      }
      assert DelimAt(s, pos, i, j, k, l);
    }
  }

  lemma EqualsWhere(s: string, pos: nat, i: nat, j: nat, k: nat)
    requires EqualsAt(s, pos, i, j, k)
    ensures i <= j <= k < |s|
  {
  }

  // ----- printing -----

  /** hpx_fprintf_attr() with a blank before it. */
  function AttrText(a: Attr): string {
    " " + a.name + "=" + [a.delim] + a.value + [a.delim]
  }

  function AttrsText(attr: seq<Attr>): string {
    if attr == [] then "" else AttrText(attr[0]) + AttrsText(attr[1..])
  }

  /** The text of a tag up to its closing '>'. */
  function TagBody(p: Tag): string {
    match p.kind
    case Close => "</" + p.tag
    case Single => "<" + p.tag + AttrsText(p.attr) + "/"
    case Open => "<" + p.tag + AttrsText(p.attr)
    case Instr => "<?" + p.tag + AttrsText(p.attr) + "?"
    case _ => ""
  }

  predicate Printable(p: Tag) {
    p.kind == Close || p.kind == Single || p.kind == Open || p.kind == Instr
  }

  /** hpx_fprintf_tag(): other types of tags are not printed. */
  method FprintfTag(p: Tag) returns (out: string)
    ensures out == if Printable(p) then TagBody(p) + ">\n" else ""
  {
    var s := "";
    if p.kind == Close {
      return "</" + p.tag + ">\n";
    }
    if p.kind == Single || p.kind == Open {
      if p.kind == Single {
        s := "/";
      }
      var a := FprintfAttrs(p.attr);
      out := "<" + p.tag + a;
      assert out + s == TagBody(p);
      return out + (s + ">\n");
    }
    if p.kind == Instr {
      var a := FprintfAttrs(p.attr);
      return "<?" + p.tag + a + "?>\n";
    }
    return "";
  }

  method FprintfAttrs(attr: seq<Attr>) returns (out: string)
    ensures out == AttrsText(attr)
  {
    out := "";
    for i := 0 to |attr|
      invariant out == AttrsText(attr[..i])
    {
      out := out + (" " + attr[i].name + "=" + [attr[i].delim] + attr[i].value + [attr[i].delim]);
      AttrsTextAppend(attr[..i], attr[i]);
      assert attr[..i + 1] == attr[..i] + [attr[i]];
    }
    assert attr[..|attr|] == attr;
  }

  lemma {:induction false} AttrsTextAppend(attr: seq<Attr>, a: Attr)
    ensures AttrsText(attr + [a]) == AttrsText(attr) + AttrText(a)
  {
    hide AttrText;
    if attr == [] {
      assert AttrsText([a]) == AttrText(a) + AttrsText([]);
    } else {
      AttrsTextAppend(attr[1..], a);
      assert (attr + [a])[1..] == attr[1..] + [a];
    }
  }

  /** s has t at position pos. */
  predicate At(s: string, pos: nat, t: string) {
    pos + |t| <= |s| && s[pos..pos + |t|] == t
  }

  lemma AtSplit(s: string, pos: nat, a: string, b: string)
    requires At(s, pos, a + b)
    ensures At(s, pos, a) && At(s, pos + |a|, b)
  {
    assert s[pos..pos + |a|] == s[pos..pos + |a + b|][..|a|];
    assert s[pos + |a|..pos + |a| + |b|] == s[pos..pos + |a + b|][|a|..];
  }

  lemma AtIndex(s: string, pos: nat, t: string, k: nat)
    requires At(s, pos, t) && k < |t|
    ensures s[pos + k] == t[k]
  {
    assert s[pos..pos + |t|][k] == t[k];
  }

  /** What is printed for an attribute is parsed as this attribute. */
  lemma ParsePrintedAttr(s: string, pos: nat, a: Attr)
    requires At(s, pos, AttrText(a)) && LegalAttr(a)
    ensures ParseAttr(s, pos) == Got(a, pos + |AttrText(a)|)
  {
    hide SpanEnd, AttrText, ParseValue;
    var p1 := pos + 1;
    var p2 := p1 + |a.name|;
    var p4 := p2 + 1;
    var p5 := p4 + 1 + |a.value|;
    AttrParts(s, pos, a);
    SpanEndIs(s, pos, IsSpace, p1);
    SpanEndIs(s, p1 + 1, IsXmlChar, p2);
    SpanEndIs(s, p2, IsSpace, p2);
    SpanEndIs(s, p4, IsSpace, p4);
    SpanEndIs(s, p4 + 1, Not(a.delim), p5);
    ParsePrintedValue(s, p4, p5, a);
  }

  lemma ParsePrintedValue(s: string, p4: nat, p5: nat, a: Attr)
    requires p4 < p5 < |s| && s[p4] == a.delim && s[p4 + 1..p5] == a.value && IsQuote(a.delim)
    requires SpanEnd(s, p4, IsSpace) == p4 && SpanEnd(s, p4 + 1, Not(a.delim)) == p5
    ensures ParseValue(s, p4, a.name) == Got(a, p5 + 1)
  {
  }

  /** The pieces of a printed attribute. */
  lemma AttrPieces(s: string, pos: nat, a: Attr)
    requires At(s, pos, AttrText(a))
    ensures var p2 := pos + 1 + |a.name|;
      && At(s, pos, " ") && At(s, pos + 1, a.name) && At(s, p2, "=") && At(s, p2 + 1, [a.delim])
      && At(s, p2 + 2, a.value) && At(s, p2 + 2 + |a.value|, [a.delim]) && |AttrText(a)| == |a.name| + |a.value| + 4
  {
    hide At;
    AtSplit(s, pos, " " + a.name + "=" + [a.delim] + a.value, [a.delim]);
    AtSplit(s, pos, " " + a.name + "=" + [a.delim], a.value);
    AtSplit(s, pos, " " + a.name + "=", [a.delim]);
    AtSplit(s, pos, " " + a.name, "=");
    AtSplit(s, pos, " ", a.name);
  }

  lemma AllAt(s: string, pos: nat, t: string, f: char -> bool)
    requires At(s, pos, t) && forall c :: c in t ==> f(c)
    ensures pos + |t| <= |s| && forall k :: pos <= k < pos + |t| ==> f(s[k])
  {
    forall k | pos <= k < pos + |t| ensures f(s[k]) {
      AtIndex(s, pos, t, k - pos);
    }
  }

  /** Where the parts of a printed attribute are. */
  lemma AttrParts(s: string, pos: nat, a: Attr)
    requires At(s, pos, AttrText(a)) && LegalAttr(a)
    ensures var p1 := pos + 1; var p2 := p1 + |a.name|; var p5 := p2 + 2 + |a.value|;
      && pos + |AttrText(a)| == p5 + 1 <= |s| && s[pos] == ' ' && s[p2] == '=' && s[p2 + 1] == a.delim == s[p5]
      && s[p1..p2] == a.name && s[p2 + 2..p5] == a.value && IsXml1Char(s[p1])
      && (forall k :: p1 <= k < p2 ==> IsXmlChar(s[k])) && (forall k :: p2 + 2 <= k < p5 ==> Not(a.delim)(s[k]))
  {
    hide AttrText;
    AttrPieces(s, pos, a);
    AllAt(s, pos + 1, a.name, IsXmlChar);
    AllAt(s, pos + 1 + |a.name| + 2, a.value, Not(a.delim));
    AtIndex(s, pos + 1, a.name, 0);
  }

  /** Nothing is taken where no attribute begins. */
  lemma NothingToParse(s: string, pos: nat, m: nat)
    requires pos < |s| && !IsSpace(s[pos]) && !IsXml1Char(s[pos])
    ensures ParseAttrs(s, pos, m) == ([], pos)
  {
    SpanEndIs(s, pos, IsSpace, pos);
  }

  /** All printed attributes are parsed, if there is room for them and nothing follows that begins like another one. */
  lemma {:induction false} ParsePrintedAttrs(s: string, pos: nat, attr: seq<Attr>, m: nat)
    requires At(s, pos, AttrsText(attr)) && (forall a :: a in attr ==> LegalAttr(a)) && |attr| <= m
    requires var e := pos + |AttrsText(attr)|; e < |s| && !IsSpace(s[e]) && !IsXml1Char(s[e])
    ensures ParseAttrs(s, pos, m) == (attr, pos + |AttrsText(attr)|)
    decreases |attr|
  {
    hide AttrText, LegalAttr, ParseAttr, IsSpace, IsXml1Char;
    if attr == [] {
      NothingToParse(s, pos, m);
    } else {
      assert attr[0] in attr;
      AtSplit(s, pos, AttrText(attr[0]), AttrsText(attr[1..]));
      ParsePrintedAttr(s, pos, attr[0]);
      ParsePrintedAttrs(s, pos + |AttrText(attr[0])|, attr[1..], m - 1);
      assert attr == [attr[0]] + attr[1..];
    }
  }

  // ----- the end of a tag -----

  /** The delimiter of the string that is open after character c, or NUL. */
  function Next(d: char, c: char): char {
    if d == '\0' then (if IsQuote(c) then c else '\0') else if d == c then '\0' else d
  }

  function Quote(d: char, s: string): char
    decreases s
  {
    if s == "" then d else Quote(Next(d, s[0]), s[1..])
  }

  /** There is no '>' outside of strings. */
  predicate NoEnd(d: char, s: string)
    decreases s
  {
    s == "" || ((Next(d, s[0]) == '\0' ==> s[0] != '>') && NoEnd(Next(d, s[0]), s[1..]))
  }

  lemma {:induction false} QuoteConcat(d: char, a: string, b: string)
    ensures Quote(d, a + b) == Quote(Quote(d, a), b)
    ensures NoEnd(d, a + b) <==> NoEnd(d, a) && NoEnd(Quote(d, a), b)
    decreases a
  {
    if a == "" {
      assert a + b == b;
    } else {
      QuoteConcat(Next(d, a[0]), a[1..], b);
      assert (a + b)[1..] == a[1..] + b;
    }
  }

  /** Text without quotes and '>' outside of strings, or without the delimiter inside of a string. */
  lemma {:induction false} PlainText(d: char, s: string)
    requires d == '\0' ==> forall c :: c in s ==> !IsQuote(c) && c != '>'
    requires d != '\0' ==> IsQuote(d) && d !in s
    ensures Quote(d, s) == d && NoEnd(d, s)
    decreases s
  {
    if s != "" {
      assert s[0] in s;
      forall c | c in s[1..] ensures c in s {
      }
      PlainText(d, s[1..]);
    }
  }

  lemma NameIsPlain(s: string)
    requires LegalName(s)
    ensures forall c :: c in s ==> !IsQuote(c) && c != '>'
  {
  }

  lemma AttrIsClosed(a: Attr)
    requires LegalAttr(a)
    ensures Quote('\0', AttrText(a)) == '\0' && NoEnd('\0', AttrText(a))
  {
    hide Quote, NoEnd;
    NameIsPlain(a.name);
    var lead := " " + a.name + "=";
    PlainText('\0', lead);
    PlainText(a.delim, a.value);
    OneChar('\0', a.delim);
    OneChar(a.delim, a.delim);
    QuoteConcat('\0', lead, [a.delim]);
    QuoteConcat('\0', lead + [a.delim], a.value);
    QuoteConcat('\0', lead + [a.delim] + a.value, [a.delim]);
  }

  lemma OneChar(d: char, c: char)
    ensures Quote(d, [c]) == Next(d, c) && (NoEnd(d, [c]) <==> Next(d, c) != '\0' || c != '>')
  {
    assert [c][1..] == "";
  }

  lemma {:induction false} AttrsAreClosed(attr: seq<Attr>)
    requires forall a :: a in attr ==> LegalAttr(a)
    ensures Quote('\0', AttrsText(attr)) == '\0' && NoEnd('\0', AttrsText(attr))
  {
    if attr != [] {
      assert attr[0] in attr;
      AttrIsClosed(attr[0]);
      forall a | a in attr[1..] ensures a in attr {
      }
      AttrsAreClosed(attr[1..]);
      QuoteConcat('\0', AttrText(attr[0]), AttrsText(attr[1..]));
    }
  }

  predicate Legal(p: Tag) {
    Printable(p) && LegalName(p.tag) && forall a :: a in p.attr ==> LegalAttr(a)
  }

  /** In a printed tag every string is closed at the end, and no '>' before it is outside of a string. */
  lemma TagIsClosed(p: Tag)
    requires Legal(p)
    ensures Quote('\0', TagBody(p)) == '\0' && NoEnd('\0', TagBody(p))
  {
    hide Quote, NoEnd, AttrsText, LegalAttr;
    NameIsPlain(p.tag);
    AttrsAreClosed(p.attr);
    var a := AttrsText(p.attr);
    match p.kind
    case Close => PlainText('\0', "</" + p.tag);
    case Single =>
      PlainText('\0', "<" + p.tag);
      PlainText('\0', "/");
      QuoteConcat('\0', "<" + p.tag, a);
      QuoteConcat('\0', "<" + p.tag + a, "/");
    case Open =>
      PlainText('\0', "<" + p.tag);
      QuoteConcat('\0', "<" + p.tag, a);
    case Instr =>
      PlainText('\0', "<?" + p.tag);
      PlainText('\0', "?");
      QuoteConcat('\0', "<?" + p.tag, a);
      QuoteConcat('\0', "<?" + p.tag + a, "?");
  }

  // ----- count_tag() -----

  datatype Section = Plain | CommentSection | CDataSection | DocType

  /** strncasecmp() for the letters of ASCII. */
  function Upper(c: char): char {
    if 'a' <= c <= 'z' then (c as int - 32) as char else c
  }

  predicate IsDocType(b: string)
    requires |b| >= 10
  {
    (forall k :: 0 <= k < 8 ==> Upper(b[1 + k]) == "!DOCTYPE"[k]) && (IsSpace(b[9]) || b[9] == '>')
  }

  /** What kind of section begins at the beginning of b, and where counting begins. */
  function SectionOf(b: string): (r: (Section, nat))
    ensures r.1 <= |b| && (r.0 == Plain ==> r.1 == 0)
  {
    if |b| >= 10 && IsDocType(b) then (DocType, 9)
    else if |b| >= 12 && b[1..9] == "![CDATA[" then (CDataSection, 9)
    else if |b| >= 7 && b[1..4] == "!--" then (CommentSection, 4)
    else (Plain, 0)
  }

  /** Number of square brackets that are open at the end of s. */
  function Brackets(s: string): int {
    if s == "" then 0
    else Brackets(s[..|s| - 1]) + if s[|s| - 1] == '[' then 1 else if s[|s| - 1] == ']' then -1 else 0
  }

  /** The section that begins at position i0 of b ends with the character at position i. */
  predicate EndsAt(b: string, c: Section, i0: nat, i: nat)
    requires i0 <= i < |b|
  {
    && b[i] == '>'
    && match c
       case Plain => Quote('\0', b[i0..i]) == '\0'
       case CommentSection => i >= 7 && b[i - 2..i] == "--"
       case CDataSection => i >= 12 && b[i - 2..i] == "]]"
       case DocType => Brackets(b[i0..i]) == 0
  }

  /** count_tag(): the length up to the first end of the section, or more than the length of b. */
  method CountTag(b: string) returns (r: nat)
    ensures 0 < r <= |b| + 1
    ensures var c := SectionOf(b);
      && (r <= |b| ==> c.1 < r && EndsAt(b, c.0, c.1, r - 1))
      && forall i :: c.1 <= i < r - 1 ==> !EndsAt(b, c.0, c.1, i)
  {
    hide SectionOf, EndsAt, Quote, Brackets, Next;
    var c, i := SectionOf(b).0, SectionOf(b).1;
    ghost var i0 := i;
    var d, sqcnt := '\0', 0;
    CountBegins(b, i);
    while i < |b|
      invariant i0 <= i <= |b| && d == Quote('\0', b[i0..i]) && (c == DocType ==> sqcnt == Brackets(b[i0..i]))
      invariant forall j :: i0 <= j < i ==> !EndsAt(b, c, i0, j)
    {
      QuoteStep(b, i0, i);
      NextIs(d, b[i]);
      EndsIff(b, c, i0, i);
      if d == '\0' {
        d := if IsQuote(b[i]) then b[i] else '\0';
      } else if IsQuote(b[i]) && d == b[i] {
        d := '\0';
      }
      if b[i] == '>' {
        if c == Plain && d == '\0' {
          break;
        }
        if c == CommentSection && i >= 7 && b[i - 2..i] == "--" {
          break;
        }
        if c == CDataSection && i >= 12 && b[i - 2..i] == "]]" {
          break;
        }
        if c == DocType && sqcnt == 0 {
          break;
        }
      } else if c == DocType {
        if b[i] == '[' {
          sqcnt := sqcnt + 1;
        } else if b[i] == ']' {
          sqcnt := sqcnt - 1;
        }
      }
      i := i + 1;
    }
    r := i + 1;
  }

  lemma CountBegins(b: string, i: nat)
    requires i <= |b|
    ensures Quote('\0', b[i..i]) == '\0' && Brackets(b[i..i]) == 0
  {
  }

  lemma NextIs(d: char, c: char)
    requires d == '\0' || IsQuote(d)
    ensures d == '\0' ==> Next(d, c) == if IsQuote(c) then c else '\0'
    ensures d != '\0' ==> Next(d, c) == if IsQuote(c) && d == c then '\0' else d
  {
  }

  lemma EndsIff(b: string, c: Section, i0: nat, i: nat)
    requires i0 <= i < |b|
    ensures EndsAt(b, c, i0, i) ==> b[i] == '>'
    ensures b[i] == '>' && c == Plain ==> (EndsAt(b, c, i0, i) <==> Quote('\0', b[i0..i]) == '\0')
    ensures b[i] == '>' && c == CommentSection ==> (EndsAt(b, c, i0, i) <==> i >= 7 && b[i - 2..i] == "--")
    ensures b[i] == '>' && c == CDataSection ==> (EndsAt(b, c, i0, i) <==> i >= 12 && b[i - 2..i] == "]]")
    ensures b[i] == '>' && c == DocType ==> (EndsAt(b, c, i0, i) <==> Brackets(b[i0..i]) == 0)
  {
  }

  lemma QuoteStep(b: string, i0: nat, i: nat)
    requires i0 <= i < |b|
    ensures Quote('\0', b[i0..i + 1]) == Next(Quote('\0', b[i0..i]), b[i])
    ensures Brackets(b[i0..i + 1]) == Brackets(b[i0..i]) + if b[i] == '[' then 1 else if b[i] == ']' then -1 else 0
    ensures Quote('\0', b[i0..i]) == '\0' || IsQuote(Quote('\0', b[i0..i]))
  {
    assert b[i0..i + 1] == b[i0..i] + [b[i]];
    QuoteConcat('\0', b[i0..i], [b[i]]);
    OneChar(Quote('\0', b[i0..i]), b[i]);
    QuoteKind('\0', b[i0..i]);
  }

  lemma {:induction false} QuoteKind(d: char, s: string)
    requires d == '\0' || IsQuote(d)
    ensures Quote(d, s) == '\0' || IsQuote(Quote(d, s))
    decreases s
  {
    if s != "" {
      QuoteKind(Next(d, s[0]), s[1..]);
    }
  }

  lemma EndOutside(s: string, i: nat)
    requires NoEnd('\0', s) && i < |s| && s[i] == '>'
    ensures Quote('\0', s[..i]) != '\0'
  {
    assert s == s[..i] + ([s[i]] + s[i + 1..]);
    QuoteConcat('\0', s[..i], [s[i]] + s[i + 1..]);
    QuoteConcat(Quote('\0', s[..i]), [s[i]], s[i + 1..]);
    OneChar(Quote('\0', s[..i]), s[i]);
  }

  /** A printed tag ends with the '>' that is printed last, whatever its values contain and whatever follows. */
  lemma PrintedTagEnds(p: Tag, tail: string)
    requires Legal(p)
    ensures SectionOf(TagBody(p) + ">" + tail) == (Plain, 0)
    ensures forall i :: 0 <= i <= |TagBody(p)| ==> (EndsAt(TagBody(p) + ">" + tail, Plain, 0, i) <==> i == |TagBody(p)|)
  {
    var b := TagBody(p) + ">" + tail;
    TagIsClosed(p);
    var t := p.tag;
    assert b[0] == '<' && b[1] == if p.kind == Close then '/' else if p.kind == Instr then '?' else t[0];
    SectionIsPlain(b);
    forall i | 0 <= i <= |TagBody(p)| ensures EndsAt(b, Plain, 0, i) <==> i == |TagBody(p)| {
      assert b[0..i] == TagBody(p)[..i];
      if i < |TagBody(p)| {
        if b[i] == '>' {
          EndOutside(TagBody(p), i);
        }
      } else {
        assert TagBody(p)[..i] == TagBody(p);
      }
    }
  }

  lemma SectionIsPlain(b: string)
    requires |b| >= 2 && b[1] != '!'
    ensures SectionOf(b) == (Plain, 0)
  {
    assert "!DOCTYPE"[0] == "![CDATA["[0] == "!--"[0] == '!' && Upper(b[1]) != '!';
    assert |b| >= 9 ==> b[1..9][0] == b[1];
    assert |b| >= 4 ==> b[1..4][0] == b[1];
  }

  /** The text t does not contain the marker. */
  ghost predicate Without(t: string, marker: string) {
    forall k: nat :: !Marked(t, k, marker)
  }

  /** A '>' behind the two characters e of an end marker, in a text and the end marker after it. */
  lemma MarkerAt(b: string, start: string, t: string, e: char, tail: string, i: nat)
    requires b == start + t + [e, e, '>'] + tail && Without(t, [e, e, '>']) && e != '>'
    requires |start| + 2 <= i <= |start| + |t| + 2
    ensures b[i] == '>' && b[i - 2..i] == [e, e] <==> i == |start| + |t| + 2
  {
    if i < |start| + |t| && b[i] == '>' && b[i - 2..i] == [e, e] {
      MarkerIn(b, start, t, e, tail, i);
    }
    assert i == |start| + |t| + 2 ==> b[i - 2..i] == [e, e];
  }

  lemma MarkerIn(b: string, start: string, t: string, e: char, tail: string, i: nat)
    requires b == start + t + [e, e, '>'] + tail && |start| + 2 <= i < |start| + |t|
    requires b[i] == '>' && b[i - 2..i] == [e, e]
    ensures Marked(t, i - 2 - |start|, [e, e, '>'])
  {
    var k := i - 2 - |start|;
    assert b[i - 2] == b[i - 2..i][0] && b[i - 1] == b[i - 2..i][1];
    assert b[i] == t[k + 2] && b[i - 1] == t[k + 1] && b[i - 2] == t[k];
  }

  /**
   * A comment that is not empty ends with the first end marker; an empty one does not end there at
   * all, because counting has gone less than 7 characters.
   */
  lemma CommentEnds(t: string, tail: string)
    requires Without(t, "-->")
    ensures var b := "<!--" + t + "-->" + tail;
      && SectionOf(b) == (CommentSection, 4)
      && forall i :: 4 <= i < |t| + 7 ==> (EndsAt(b, CommentSection, 4, i) <==> i == |t| + 6 && t != "")
  {
    var b := "<!--" + t + "-->" + tail;
    assert b[1..4] == "!--";
    assert |b| >= 9 ==> b[1..9][1] == b[2] == '-';
    assert Upper(b[2]) != "!DOCTYPE"[1];
    forall i | 4 <= i < |t| + 7 ensures EndsAt(b, CommentSection, 4, i) <==> i == |t| + 6 && t != "" {
      if i >= 7 {
        MarkerAt(b, "<!--", t, '-', tail, i);
      }
    }
  }

  /** The same for a CDATA section, where it is 12 characters. */
  lemma CDataEnds(t: string, tail: string)
    requires Without(t, "]]>")
    ensures var b := "<![CDATA[" + t + "]]>" + tail;
      && SectionOf(b) == (CDataSection, 9)
      && forall i :: 9 <= i < |t| + 12 ==> (EndsAt(b, CDataSection, 9, i) <==> i == |t| + 11 && t != "")
  {
    var b := "<![CDATA[" + t + "]]>" + tail;
    assert b[1..9] == "![CDATA[";
    assert Upper(b[2]) == '[' != "!DOCTYPE"[1];
    forall i | 9 <= i < |t| + 12 ensures EndsAt(b, CDataSection, 9, i) <==> i == |t| + 11 && t != "" {
      if i >= 12 {
        MarkerAt(b, "<![CDATA[", t, ']', tail, i);
      }
    }
  }

  lemma {:induction false} BracketsConcat(s: string, t: string)
    ensures Brackets(s + t) == Brackets(s) + Brackets(t)
  {
    if t == "" {
      assert s + t == s;
    } else {
      BracketsConcat(s, t[..|t| - 1]);
      assert (s + t)[..|s + t| - 1] == s + t[..|t| - 1];
    }
  }

  lemma {:induction false} NoBrackets(s: string)
    requires '[' !in s && ']' !in s
    ensures Brackets(s) == 0
  {
    if s != "" {
      NoBrackets(s[..|s| - 1]);
    }
  }

  /** A document type without its internal subset: what comes before the subset, and what comes after it. */
  ghost predicate Declares(w: string, t: string) {
    && |w| == 8 && (forall k :: 0 <= k < 8 ==> w[k] == "!DOCTYPE"[k] || w[k] == "!doctype"[k])
    && (t != "" ==> t[0] == ' ' || t[0] == '\t' || t[0] == '\n' || t[0] == '\r')
    && NoMarkup(t)
  }

  predicate NoMarkup(t: string) {
    '[' !in t && ']' !in t && '>' !in t
  }

  /** The internal subset of a document type may have '>' in it, but no brackets. */
  function SubsetText(subset: Option<string>): string {
    match subset
    case None => ""
    case Some(u) => "[" + u + "]"
  }

  /** In small or in capital letters, a document type ends with the first '>' that is not within its internal subset. */
  lemma DocTypeEnds(w: string, t: string, subset: Option<string>, u: string, tail: string)
    requires Declares(w, t) && (t == "" ==> subset == None && u == "") && NoMarkup(u)
    requires subset.Some? ==> '[' !in subset.value && ']' !in subset.value
    ensures var n := |t| + |SubsetText(subset)| + |u|; var b := "<" + w + (t + SubsetText(subset) + u) + ">" + tail;
      && SectionOf(b) == (DocType, 9)
      && forall i :: 9 <= i <= n + 9 ==> (EndsAt(b, DocType, 9, i) <==> i == n + 9)
  {
    hide Brackets, IsDocType;
    var x := t + SubsetText(subset) + u;
    var b := "<" + w + x + ">" + tail;
    IsDeclared(w, t, b);
    forall i | 9 <= i <= |x| + 9 ensures EndsAt(b, DocType, 9, i) <==> i == |x| + 9 {
      assert b[9..i] == x[..i - 9];
      assert b[i] == if i < |x| + 9 then x[i - 9] else '>';
      BracketsUpTo(t, subset, u, i - 9);
    }
  }

  lemma IsDeclared(w: string, t: string, b: string)
    requires Declares(w, t) && |b| >= 10 && b[1..9] == w && b[9] == if t == "" then '>' else t[0]
    ensures IsDocType(b)
  {
    assert forall k :: 0 <= k < 8 ==> b[1 + k] == b[1..9][k] == w[k];
    DocTypeIff(b);
  }

  /** Upper and lower case are the same for the name of a document type, and nothing else is. */
  lemma DocTypeIff(b: string)
    requires |b| >= 10
    ensures IsDocType(b) <==>
      && (forall k :: 0 <= k < 8 ==> b[1 + k] == "!DOCTYPE"[k] || b[1 + k] == "!doctype"[k])
      && (IsSpace(b[9]) || b[9] == '>')
  {
    hide IsSpace;
    forall k | 0 <= k < 8
      ensures Upper(b[1 + k]) == "!DOCTYPE"[k] <==> b[1 + k] == "!DOCTYPE"[k] || b[1 + k] == "!doctype"[k]
    {
      assert "!DOCTYPE"[k] == Upper("!doctype"[k]);
    }
  }

  predicate CDataIntro(b: string)
    requires |b| >= 9
  {
    b[1] == '!' && b[2] == b[8] == '[' && b[3] == 'C' && b[4] == 'D' && b[5] == b[7] == 'A' && b[6] == 'T'
  }

  /** What begins with the markers of a comment or a CDATA section is one, if it is long enough; the rest is plain. */
  lemma SectionIff(b: string)
    ensures var c := SectionOf(b).0;
      && (c == CommentSection <==> |b| >= 7 && b[1] == '!' && b[2] == b[3] == '-')
      && (c == CDataSection <==> |b| >= 12 && CDataIntro(b))
      && (c == DocType <==> |b| >= 10 && IsDocType(b))
  {
    if |b| >= 7 {
      CommentStart(b);
    }
    if |b| >= 12 {
      CDataStart(b);
    }
  }

  lemma CommentStart(b: string)
    requires |b| >= 7
    ensures b[1..4] == "!--" <==> b[1] == '!' && b[2] == b[3] == '-'
    ensures b[2] == '-' && |b| >= 10 ==> !IsDocType(b)
  {
    assert b[1..4] == [b[1], b[2], b[3]];
    assert |b| >= 10 && b[2] == '-' ==> Upper(b[1 + 1]) != "!DOCTYPE"[1];
  }

  lemma CDataStart(b: string)
    requires |b| >= 12
    ensures b[1..9] == "![CDATA[" <==> CDataIntro(b)
    ensures b[2] == '[' ==> !IsDocType(b)
  {
    assert b[1..9] == [b[1], b[2], b[3], b[4], b[5], b[6], b[7], b[8]];
    assert b[2] == '[' ==> Upper(b[1 + 1]) != "!DOCTYPE"[1];
  }

  /** Where there is a '>' in the text a bracket is open, and none is open at its end. */
  lemma BracketsUpTo(t: string, subset: Option<string>, u: string, i: nat)
    requires NoMarkup(t) && NoMarkup(u) && (subset.Some? ==> '[' !in subset.value && ']' !in subset.value)
    requires i <= |t| + |SubsetText(subset)| + |u|
    ensures var x := t + SubsetText(subset) + u; if i < |x| then x[i] == '>' ==> Brackets(x[..i]) == 1
      else Brackets(x[..i]) == 0
  {
    hide Brackets;
    var s := SubsetText(subset);
    var x := t + s + u;
    assert i < |x| ==> x[i] == if i < |t| then t[i] else if i < |t| + |s| then s[i - |t|] else u[i - |t| - |s|];
    if subset.Some? {
      var v := subset.value;
      if |t| < i <= |t| + |v| {
        OpenBracket(t, v[..i - |t| - 1]);
        assert x[..i] == t + ("[" + v[..i - |t| - 1]);
      }
      OpenBracket(t, v);
      assert t + s == t + ("[" + v) + "]";
      BracketsConcat(t + ("[" + v), "]");
      OneBracket();
    } else {
      assert t + s == t;
      NoBrackets(t);
    }
    if i == |x| {
      assert x[..i] == t + s + u;
      BracketsConcat(t + s, u);
      NoBrackets(u);
    }
  }

  lemma OneBracket()
    ensures Brackets("[") == 1 && Brackets("]") == -1
  {
    assert "["[..0] == "" && "]"[..0] == "";
  }

  lemma OpenBracket(t: string, v: string)
    requires '[' !in t && ']' !in t && '[' !in v && ']' !in v
    ensures Brackets(t + ("[" + v)) == 1
  {
    hide Brackets;
    OneBracket();
    NoBrackets(t);
    NoBrackets(v);
    BracketsConcat("[", v);
    BracketsConcat(t, "[" + v);
  }

  // ----- hpx_process_elem() -----

  /** A character of the element, or NUL behind its end. */
  function Char(s: string, b: nat): char {
    if b < |s| then s[b] else '\0'
  }

  /** hpx_parse_name(): the name at position b, if there is one. */
  method ParseName(s: string, b: nat) returns (name: Option<string>, e: nat)
    requires b <= |s|
    ensures IsXml1Char(Char(s, b)) ==> e == SpanEnd(s, b + 1, IsXmlChar) && name == Some(s[b..e])
    ensures !IsXml1Char(Char(s, b)) ==> e == b && name == None
  {
    if !IsXml1Char(Char(s, b)) {
      return None, b;
    }
    e := Span(s, b + 1, IsXmlChar);
    name := Some(s[b..e]);
  }

  predicate Marked(s: string, k: nat, marker: string) {
    k + |marker| <= |s| && s[k..k + |marker|] == marker
  }

  /** The text up to an end marker, or up to where there are fewer characters left than in the marker. */
  method UpTo(s: string, b: nat, marker: string) returns (e: nat)
    requires b <= |s|
    ensures b <= e <= |s| && (Marked(s, e, marker) || |s| - e < |marker|)
    ensures forall k :: b <= k < e ==> !Marked(s, k, marker)
  {
    e := b;
    while |s| - e >= |marker| && s[e..e + |marker|] != marker
      invariant b <= e <= |s| && forall k :: b <= k < e ==> !Marked(s, k, marker)
    {
      e := e + 1;
    }
  }

  /** The text from lead on is taken up to the first end marker; without one it is an error. */
  ghost predicate Enclosed(s: string, lead: nat, marker: string, kind: Type, r: int, q: Tag) {
    var e := lead + |q.tag|;
    if exists k: nat :: lead <= k && Marked(s, k, marker) then
      && r == 0 && q.kind == kind && Marked(s, e, marker) && q.tag == s[lead..e]
      && forall k: nat :: lead <= k < e ==> !Marked(s, k, marker)
    else r == -1
  }

  /** The text s is what is printed for the tag p0, and there is room for its attributes. */
  ghost predicate TextOf(s: string, p0: Tag, mattr: nat) {
    Legal(p0) && |p0.attr| <= mattr && s == TagBody(p0) + ">"
  }

  /** What is expected of hpx_process_elem() if s is the text of the tag p0. */
  ghost predicate Recovered(s: string, mattr: nat, p0: Tag, r: int, q: Tag) {
    TextOf(s, p0, mattr) ==>
      r == 0 && q.kind == p0.kind && q.tag == p0.tag && (p0.kind != Close ==> q.attr == p0.attr)
  }

  /** Where the parts of a printed tag are. */
  ghost predicate Parts(s: string, p: Tag, mattr: nat) {
    var lead := if p.kind == Close || p.kind == Instr then 2 else 1;
    var e := lead + |p.tag|;
    var f := if p.kind == Close then e else e + |AttrsText(p.attr)|;
    && lead < e <= f < |s| && s[0] == '<' && s[lead..e] == p.tag && IsXml1Char(s[lead])
    && SpanEnd(s, 1, IsSpace) == 1 && SpanEnd(s, lead, IsSpace) == lead
    && SpanEnd(s, lead + 1, IsXmlChar) == e
    && SpanEnd(s, f, IsSpace) == f
    && (p.kind != Close ==> ParseAttrs(s, e, mattr) == (p.attr, f))
    && match p.kind
       case Close => s[1] == '/' && s[f] == '>'
       case Instr => s[1] == '?' && f + 2 == |s| && s[f..f + 2] == "?>"
       case Open => s[f] == '>'
       case Single => s[f] == '/' && f + 2 == |s| && s[f + 1] == '>' && SpanEnd(s, f + 1, IsSpace) == f + 1
       case _ => false
  }

  lemma Shape(s: string, p: Tag, mattr: nat)
    ensures TextOf(s, p, mattr) ==> Parts(s, p, mattr)
  {
    if TextOf(s, p, mattr) {
      PrintedParts(s, p, mattr);
    }
  }

  lemma Layout(s: string, intro: string, name: string, a: string, end: string)
    requires s == intro + name + a + end
    ensures var e := |intro| + |name|; var f := e + |a|;
      && |s| == f + |end| && s[..|intro|] == intro && s[|intro|..e] == name && s[e..f] == a && s[f..] == end
    ensures forall k :: 0 <= k < |intro| ==> s[k] == intro[k]
    ensures forall k :: |intro| <= k < |intro| + |name| ==> s[k] == name[k - |intro|]
    ensures a != "" ==> s[|intro| + |name|] == a[0]
    ensures forall k :: 0 <= k < |end| ==> s[|intro| + |name| + |a| + k] == end[k]
  {
  }

  function Intro(kind: Type): string {
    if kind == Close then "</" else if kind == Instr then "<?" else "<"
  }

  function Ending(kind: Type): string {
    if kind == Single then "/>" else if kind == Instr then "?>" else ">"
  }

  lemma TagBodyIs(p: Tag)
    requires Printable(p)
    ensures TagBody(p) + ">" ==
      Intro(p.kind) + p.tag + (if p.kind == Close then "" else AttrsText(p.attr)) + Ending(p.kind)
  {
    hide AttrsText;
    assert p.kind == Close ==> "</" + p.tag + "" == "</" + p.tag;
  }

  lemma IntroIs(s: string, kind: Type)
    requires |Intro(kind)| <= |s| && s[..|Intro(kind)|] == Intro(kind)
    ensures |Intro(kind)| == if kind == Close || kind == Instr then 2 else 1
    ensures s[0] == '<' && (kind == Close ==> s[1] == '/') && (kind == Instr ==> s[1] == '?')
  {
    var intro := s[..|Intro(kind)|];
    assert s[0] == intro[0] && (|intro| > 1 ==> s[1] == intro[1]);
  }

  lemma EndingIs(s: string, kind: Type, f: nat)
    requires f < |s| && s[f..] == Ending(kind)
    ensures if kind == Single || kind == Instr then f + 2 == |s| && s[f + 1] == '>' else s[f] == '>'
    ensures kind == Single ==> s[f] == '/'
    ensures kind == Instr ==> s[f..f + 2] == "?>"
  {
    var end := s[f..];
    assert s[f] == end[0] && (|end| > 1 ==> s[f + 1] == end[1]);
    if kind == Instr {
      assert s[f..f + 2] == end;
    }
  }

  lemma LegalIs(p: Tag)
    requires Legal(p)
    ensures p.kind == Open || p.kind == Close || p.kind == Single || p.kind == Instr
    ensures forall a :: a in p.attr ==> LegalAttr(a)
  {
  }

  lemma AttrsFound(s: string, attr: seq<Attr>, e: nat, f: nat, mattr: nat)
    requires e <= f < |s| && s[e..f] == AttrsText(attr) && (forall a :: a in attr ==> LegalAttr(a)) && |attr| <= mattr
    requires !IsSpace(s[f]) && !IsXml1Char(s[f])
    ensures ParseAttrs(s, e, mattr) == (attr, f)
  {
    hide AttrsText, LegalAttr, ParseAttrs, IsSpace, IsXml1Char;
    assert At(s, e, AttrsText(attr));
    ParsePrintedAttrs(s, e, attr, mattr);
  }

  lemma PrintedParts(s: string, p: Tag, mattr: nat)
    requires Legal(p) && |p.attr| <= mattr && s == TagBody(p) + ">"
    ensures Parts(s, p, mattr)
  {
    hide SpanEnd, ParseAttrs, AttrsText, LegalAttr, TagBody, IsXmlChar, IsXml1Char, IsSpace, Intro, Ending, Legal;
    LegalIs(p);
    var lead := |Intro(p.kind)|;
    var e := lead + |p.tag|;
    var a := if p.kind == Close then "" else AttrsText(p.attr);
    var f := e + |a|;
    PartsScanned(s, p, lead, e, a, f);
    if p.kind != Close {
      AttrsFound(s, p.attr, e, f, mattr);
    }
    IntroIs(s, p.kind);
    EndingIs(s, p.kind, f);
  }

  /** Where the parts of a printed tag are, and the characters at their edges. */
  lemma PartsPlaced(s: string, p: Tag, lead: nat, e: nat, a: string, f: nat)
    requires Legal(p) && s == TagBody(p) + ">"
    requires lead == |Intro(p.kind)| && e == lead + |p.tag| && f == e + |a| &&
      a == if p.kind == Close then "" else AttrsText(p.attr)
    ensures lead < e <= f < |s| && s[..lead] == Intro(p.kind) && s[lead..e] == p.tag && s[e..f] == a &&
      s[f..] == Ending(p.kind)
    ensures forall k :: lead <= k < e ==> s[k] == p.tag[k - lead]
    ensures a != "" ==> s[e] == a[0]
    ensures s[f] == Ending(p.kind)[0] && (p.kind == Single ==> f + 1 < |s| && s[f + 1] == '>')
    ensures lead == 2 ==> s[1] == Intro(p.kind)[1]
  {
    hide AttrsText, LegalAttr, TagBody, IsAlpha, IsXmlChar, IsXml1Char, IsSpace;
    TagBodyIs(p);
    Layout(s, Intro(p.kind), p.tag, a, Ending(p.kind));
  }

  lemma PartsScanned(s: string, p: Tag, lead: nat, e: nat, a: string, f: nat)
    requires Legal(p) && s == TagBody(p) + ">"
    requires lead == |Intro(p.kind)| && e == lead + |p.tag| && f == e + |a| &&
      a == if p.kind == Close then "" else AttrsText(p.attr)
    ensures lead < e <= f < |s| && s[..lead] == Intro(p.kind) && s[lead..e] == p.tag && s[e..f] == a &&
      s[f..] == Ending(p.kind)
    ensures IsXml1Char(s[lead]) && !IsSpace(s[f]) && !IsXml1Char(s[f])
    ensures SpanEnd(s, 1, IsSpace) == 1 && SpanEnd(s, lead, IsSpace) == lead
    ensures SpanEnd(s, lead + 1, IsXmlChar) == e && SpanEnd(s, f, IsSpace) == f
    ensures p.kind == Single ==> SpanEnd(s, f + 1, IsSpace) == f + 1
  {
    hide SpanEnd, AttrsText, LegalAttr, TagBody, IsXmlChar, IsXml1Char, IsSpace;
    PartsPlaced(s, p, lead, e, a, f);
    NotNameChars();
    FirstOfAttrs(p.attr);
    SpanEndIs(s, 1, IsSpace, 1);
    SpanEndIs(s, lead, IsSpace, lead);
    SpanEndIs(s, lead + 1, IsXmlChar, e);
    SpanEndIs(s, f, IsSpace, f);
    if p.kind == Single {
      SpanEndIs(s, f + 1, IsSpace, f + 1);
    }
  }

  lemma NotNameChars()
    ensures !IsXmlChar(' ') && !IsXmlChar('/') && !IsXmlChar('?') && !IsXmlChar('>')
    ensures !IsSpace('/') && !IsSpace('?') && !IsSpace('>')
    ensures forall c :: IsXml1Char(c) ==> IsXmlChar(c) && !IsSpace(c)
  {
  }

  lemma FirstOfAttrs(attr: seq<Attr>)
    ensures attr != [] ==> AttrsText(attr) != "" && AttrsText(attr)[0] == ' '
    ensures attr == [] ==> AttrsText(attr) == ""
  {
  }

  /** Where the name at b ends; b if there is none. */
  function NameEnd(s: string, b: nat): (e: nat)
    requires b <= |s|
    ensures b <= e <= |s|
  {
    if IsXml1Char(Char(s, b)) then SpanEnd(s, b + 1, IsXmlChar) else b
  }

  /** The name at b; without one the tag keeps the name it has. */
  function NameAt(s: string, b: nat, p: Tag): string
    requires b <= |s|
  {
    if NameEnd(s, b) > b then s[b..NameEnd(s, b)] else p.tag
  }

  /** From b on there are a name, attributes, blanks, and '>' or '/', blanks and '>'. */
  ghost predicate ReadsOpen(s: string, b: nat, p: Tag, mattr: nat, r: int, q: Tag)
    requires b <= |s|
  {
    var (attr, f) := ParseAttrs(s, NameEnd(s, b), mattr);
    var k := SpanEnd(s, f, IsSpace);
    && (r == 0 <==> Char(s, k) == '>' || (Char(s, k) == '/' && Char(s, SpanEnd(s, k + 1, IsSpace)) == '>'))
    && (r == 0 ==> q == Tag(if Char(s, k) == '>' then Open else Single, NameAt(s, b, p), attr))
  }

  /** From b on there are blanks, a name, blanks and '>'. */
  ghost predicate ReadsClose(s: string, b: nat, p: Tag, r: int, q: Tag)
    requires b <= |s|
  {
    var i := SpanEnd(s, b, IsSpace);
    && (r == 0 <==> Char(s, SpanEnd(s, NameEnd(s, i), IsSpace)) == '>')
    && (r == 0 ==> q == p.(kind := Close, tag := NameAt(s, i, p)))
  }

  /** From b on there are a name, attributes, blanks and "?>". */
  ghost predicate ReadsInstr(s: string, b: nat, p: Tag, mattr: nat, r: int, q: Tag)
    requires b <= |s|
  {
    var (attr, f) := ParseAttrs(s, NameEnd(s, b), mattr);
    && (r == 0 <==> Marked(s, SpanEnd(s, f, IsSpace), "?>"))
    && (r == 0 ==> q == Tag(Instr, NameAt(s, b, p), attr))
  }

  /** From b on there is a comment, a CDATA section or any other declaration. */
  ghost predicate ReadsDecl(s: string, b: nat, r: int, q: Tag)
    requires b <= |s|
  {
    && (Marked(s, b, "--") ==> Enclosed(s, b + 2, "-->", Comment, r, q))
    && (Marked(s, b, "[CDATA[") ==> Enclosed(s, b + 7, "]]>", CData, r, q))
    && (!Marked(s, b, "--") && !Marked(s, b, "[CDATA[") ==>
          r == 0 && q.kind == Att && q.tag == if b < |s| then s[b..|s| - 1] else [])
  }

  /** hpx_process_elem() for a tag whose name begins at b. */
  method ProcessOpen(s: string, b: nat, p: Tag, mattr: nat) returns (r: int, q: Tag)
    requires p.kind == Ill && b < |s| && IsXml1Char(s[b])
    ensures r == 0 || (r == -1 && q.kind == Ill)
    ensures ReadsOpen(s, b, p, mattr, r, q)
  {
    hide SpanEnd, ParseAttrs, IsXmlChar, IsXml1Char, IsSpace;
    var name, e := ParseName(s, b);
    q := p.(tag := name.value);
    var attr, i := ParseAttrList(s, e, mattr);
    q := q.(attr := attr);
    i := Span(s, i, IsSpace);
    if i == |s| {
      return -1, q;
    }
    if s[i] == '>' {
      return 0, q.(kind := Open);
    }
    if s[i] != '/' {
      return -1, q;
    }
    i := i + 1;
    if i == |s| {
      return -1, q;
    }
    i := Span(s, i, IsSpace);
    if i == |s| || s[i] != '>' {
      return -1, q;
    }
    return 0, q.(kind := Single);
  }

  /** The same for a closing tag with its '/' at b. */
  method ProcessClose(s: string, b: nat, p: Tag) returns (r: int, q: Tag)
    requires p.kind == Ill && b < |s|
    ensures r == 0 || (r == -1 && q.kind == Ill)
    ensures ReadsClose(s, b + 1, p, r, q)
  {
    hide SpanEnd, IsXmlChar, IsXml1Char, IsSpace;
    q := p;
    var i := b + 1;
    NoName(s);
    if i == |s| {
      return -1, q;
    }
    i := Span(s, i, IsSpace);
    if i == |s| {
      return -1, q;
    }
    var name, e := ParseName(s, i);
    if name != None {
      q := q.(tag := name.value);
    }
    i := Span(s, e, IsSpace);
    if i == |s| || s[i] != '>' {
      return -1, q;
    }
    return 0, q.(kind := Close);
  }

  /** Nothing follows the end. */
  lemma NoName(s: string)
    ensures NameEnd(s, |s|) == |s|
  {
  }

  /** What UpTo() has found. */
  lemma IsEnclosed(s: string, lead: nat, e: nat, marker: string, kind: Type, q: Tag)
    requires lead <= e <= |s| && (Marked(s, e, marker) || |s| - e < |marker|) && q.tag == s[lead..e]
    requires forall k :: lead <= k < e ==> !Marked(s, k, marker)
    ensures |s| - e < |marker| ==> Enclosed(s, lead, marker, kind, -1, q)
    ensures |s| - e >= |marker| && q.kind == kind ==> Enclosed(s, lead, marker, kind, 0, q)
  {
    assert |q.tag| == e - lead;
  }

  /** The same for comments, CDATA sections and other declarations. */
  method ProcessDecl(s: string, at: nat, p: Tag) returns (r: int, q: Tag)
    requires p.kind == Ill && at < |s|
    ensures r == 0 || (r == -1 && q.kind == Ill)
    ensures ReadsDecl(s, at + 1, r, q)
  {
    hide Enclosed;
    q := p;
    var b := at + 1;
    assert !(Marked(s, b, "--") && Marked(s, b, "[CDATA[")) by {
      assert Marked(s, b, "--") ==> s[b..b + 2][0] == s[b] == '-';
      assert Marked(s, b, "[CDATA[") ==> s[b..b + 7][0] == s[b] == '[';
    }
    if |s| - b >= 2 && s[b..b + 2] == "--" {
      b := b + 2;
      var e := UpTo(s, b, "-->");
      q := q.(tag := s[b..e]);
      IsEnclosed(s, b, e, "-->", Comment, q);
      IsEnclosed(s, b, e, "-->", Comment, q.(kind := Comment));
      if |s| - e < 3 {
        return -1, q;
      }
      return 0, q.(kind := Comment);
    }
    if |s| - b >= 7 && s[b..b + 7] == "[CDATA[" {
      b := b + 7;
      var e := UpTo(s, b, "]]>");
      q := q.(tag := s[b..e]);
      IsEnclosed(s, b, e, "]]>", CData, q);
      IsEnclosed(s, b, e, "]]>", CData, q.(kind := CData));
      if |s| - e < 3 {
        return -1, q;
      }
      return 0, q.(kind := CData);
    }
    return 0, q.(kind := Att, tag := s[b..if b < |s| then |s| - 1 else b]);
  }

  /** Where a comment or CDATA section begins. */
  lemma DeclStart(s: string, start: string, rest: string)
    requires start == "<!" + rest && rest != ""
    ensures Marked(s, 0, start) <==> Marked(s, 0, "<!") && Marked(s, 2, rest)
  {
    if Marked(s, 0, start) {
      var t := s[..|start|];
      assert s[..2] == t[..2] && s[2..2 + |rest|] == t[2..];
    }
    if Marked(s, 0, "<!") && Marked(s, 2, rest) {
      assert s[..|start|] == s[..2] + s[2..2 + |rest|];
    }
  }

  lemma DeclIs(s: string)
    ensures Marked(s, 0, "<!") ==>
      |s| >= 2 && s[0] == '<' && s[1] == '!' && SpanEnd(s, 1, IsSpace) == 1 && !IsXml1Char('!')
  {
    if Marked(s, 0, "<!") {
      assert s[0] == s[..2][0] && s[1] == s[..2][1];
    }
  }

  /** The same for processing instructions. */
  method ProcessInstr(s: string, b: nat, p: Tag, mattr: nat) returns (r: int, q: Tag)
    requires p.kind == Ill && b < |s|
    ensures r == 0 || (r == -1 && q.kind == Ill)
    ensures ReadsInstr(s, b + 1, p, mattr, r, q)
  {
    hide SpanEnd, ParseAttrs, IsXmlChar, IsXml1Char, IsSpace;
    q := p;
    var name, e := ParseName(s, b + 1);
    if name != None {
      q := q.(tag := name.value);
    }
    var attr, i := ParseAttrList(s, e, mattr);
    q := q.(attr := attr);
    i := Span(s, i, IsSpace);
    if i == |s| {
      return -1, q;
    }
    if |s| - i >= 2 && s[i..i + 2] == "?>" {
      return 0, q.(kind := Instr);
    }
    return -1, q;
  }

  /** What kind of element s is, is decided by the first character that is not a blank after the '<'. */
  ghost predicate Reads(s: string, p: Tag, mattr: nat, r: int, q: Tag) {
    if s == "" then r == -1
    else if s[0] != '<' then r == 0 && q == p.(kind := Literal, tag := s)
    else
      var b := SpanEnd(s, 1, IsSpace);
      if IsXml1Char(Char(s, b)) then ReadsOpen(s, b, p, mattr, r, q)
      else if Char(s, b) == '/' then ReadsClose(s, b + 1, p, r, q)
      else if Char(s, b) == '?' then ReadsInstr(s, b + 1, p, mattr, r, q)
      else if Char(s, b) == '!' then ReadsDecl(s, b + 1, r, q)
      else r == -1
  }

  lemma NulIsNoName()
    ensures !IsXml1Char('\0') && !IsXml1Char('/') && !IsXml1Char('?') && !IsXml1Char('!')
  {
  }

  /** A printed tag is read as the tag that was printed. */
  lemma ReadsPrinted(s: string, p: Tag, mattr: nat, r: int, q: Tag, p0: Tag)
    requires Reads(s, p, mattr, r, q) && TextOf(s, p0, mattr)
    ensures Recovered(s, mattr, p0, r, q)
  {
    hide SpanEnd, ParseAttrs, TextOf, IsXmlChar, IsXml1Char, IsSpace, AttrsText;
    Shape(s, p0, mattr);
    NulIsNoName();
    NotNameChars();
  }

  /** A declaration is read as such. */
  lemma ReadsDeclared(s: string, p: Tag, mattr: nat, r: int, q: Tag)
    requires Reads(s, p, mattr, r, q) && Marked(s, 0, "<!")
    ensures ReadsDecl(s, 2, r, q)
  {
    hide SpanEnd, IsXml1Char, IsSpace, ReadsDecl, ReadsOpen, ReadsClose, ReadsInstr;
    DeclIs(s);
  }

  /**
   * hpx_process_elem(): parses the element s into the tag structure p, which has room for mattr
   * attributes. p0 is any tag that s may be the printed text of.
   */
  method ProcessElem(s: string, p: Tag, mattr: nat, ghost p0: Tag) returns (r: int, q: Tag)
    ensures r == 0 || (r == -1 && q.kind == Ill)
    ensures s != "" && s[0] != '<' ==> r == 0 && q == p.(kind := Literal, tag := s)
    ensures Reads(s, p, mattr, r, q)
    ensures Recovered(s, mattr, p0, r, q)
    ensures Marked(s, 0, "<!--") ==> Enclosed(s, 4, "-->", Comment, r, q)
    ensures Marked(s, 0, "<![CDATA[") ==> Enclosed(s, 9, "]]>", CData, r, q)
    ensures Marked(s, 0, "<!") && !Marked(s, 0, "<!--") && !Marked(s, 0, "<![CDATA[") ==>
      r == 0 && q.kind == Att && q.tag == if |s| > 2 then s[2..|s| - 1] else []
  {
    hide *;
    r, q := ReadElem(s, p, mattr);
    ReadsAll(s, p, mattr, r, q, p0);
  }

  lemma ReadsAll(s: string, p: Tag, mattr: nat, r: int, q: Tag, p0: Tag)
    requires Reads(s, p, mattr, r, q)
    ensures s != "" && s[0] != '<' ==> r == 0 && q == p.(kind := Literal, tag := s)
    ensures Recovered(s, mattr, p0, r, q)
    ensures Marked(s, 0, "<!--") ==> Enclosed(s, 4, "-->", Comment, r, q)
    ensures Marked(s, 0, "<![CDATA[") ==> Enclosed(s, 9, "]]>", CData, r, q)
    ensures Marked(s, 0, "<!") && !Marked(s, 0, "<!--") && !Marked(s, 0, "<![CDATA[") ==>
      r == 0 && q.kind == Att && q.tag == if |s| > 2 then s[2..|s| - 1] else []
  {
    hide TextOf, Marked, Enclosed, SpanEnd, ReadsOpen, ReadsClose, ReadsInstr;
    if TextOf(s, p0, mattr) {
      ReadsPrinted(s, p, mattr, r, q, p0);
    }
    DeclIs(s);
    DeclStart(s, "<!--", "--");
    DeclStart(s, "<![CDATA[", "[CDATA[");
    if Marked(s, 0, "<!") {
      ReadsDeclared(s, p, mattr, r, q);
    }
  }

  method ReadElem(s: string, p: Tag, mattr: nat) returns (r: int, q: Tag)
    ensures r == 0 || (r == -1 && q.kind == Ill)
    ensures Reads(s, p, mattr, r, q)
  {
    hide SpanEnd, ParseAttrs, IsXml1Char, ReadsOpen, ReadsClose, ReadsInstr, ReadsDecl;
    NulIsNoName();
    if s != "" && s[0] != '<' {
      return 0, p.(kind := Literal, tag := s);
    }
    q := p.(kind := Ill);
    if |s| <= 1 {
      return -1, q;
    }
    var b := Span(s, 1, IsSpace);
    if b == |s| {
      return -1, q;
    }
    if IsXml1Char(s[b]) {
      r, q := ProcessOpen(s, b, q, mattr);
      SameName(s, b, p, mattr, r, q);
    } else if s[b] == '/' {
      r, q := ProcessClose(s, b, q);
      SameName(s, b + 1, p, mattr, r, q);
    } else if s[b] == '!' {
      r, q := ProcessDecl(s, b, q);
    } else if s[b] == '?' {
      r, q := ProcessInstr(s, b, q, mattr);
      SameName(s, b + 1, p, mattr, r, q);
    } else {
      r := -1;
    }
  }

  /** The kind that the tag has before does not matter. */
  lemma SameName(s: string, b: nat, p: Tag, mattr: nat, r: int, q: Tag)
    requires b <= |s|
    ensures ReadsOpen(s, b, p, mattr, r, q) == ReadsOpen(s, b, p.(kind := Ill), mattr, r, q)
    ensures ReadsClose(s, b, p, r, q) == ReadsClose(s, b, p.(kind := Ill), r, q)
    ensures ReadsInstr(s, b, p, mattr, r, q) == ReadsInstr(s, b, p.(kind := Ill), mattr, r, q)
  {
    hide SpanEnd, ParseAttrs, IsXml1Char;
  }

  /** A printed tag, followed by anything, is cut off where it ends and parsed as the same tag. */
  method PrintAndParse(p: Tag, tail: string, mattr: nat) returns (r: int, q: Tag)
    requires Legal(p) && |p.attr| <= mattr
    ensures r == 0 && q.kind == p.kind && q.tag == p.tag && (p.kind != Close ==> q.attr == p.attr)
  {
    hide Legal, EndsAt, SectionOf, TagBody;
    LegalIsPrintable(p);
    var out := FprintfTag(p);
    assert out + tail == TagBody(p) + ">" + ("\n" + tail);
    PrintedTagEnds(p, "\n" + tail);
    var len := CountTag(out + tail);
    assert SectionOf(out + tail) == (Plain, 0) && EndsAt(out + tail, Plain, 0, |TagBody(p)|);
    assert len == |TagBody(p)| + 1;
    assert (out + tail)[..len] == TagBody(p) + ">";
    r, q := ProcessElem((out + tail)[..len], Tag(Ill, "", []), mattr, p);
  }

  /** A comment that is not empty is cut off at its end marker, and its text is what was between the markers. */
  method CommentAndParse(t: string, tail: string, mattr: nat) returns (r: int, q: Tag)
    requires t != "" && Without(t, "-->")
    ensures r == 0 && q.kind == Comment && q.tag == t
  {
    hide EndsAt, SectionOf, Without, Marked, Enclosed;
    var b := "<!--" + t + "-->" + tail;
    CommentEnds(t, tail);
    var len := CountTag(b);
    assert EndsAt(b, CommentSection, 4, |t| + 6);
    assert len == |t| + 7 && b[..len] == "<!--" + t + "-->";
    IsWithin("<!--", t, "-->");
    r, q := ProcessElem(b[..len], Tag(Ill, "", []), mattr, Tag(Ill, "", []));
    EnclosedText("<!--", t, "-->", Comment, r, q);
  }

  /** The same for a CDATA section. */
  method CDataAndParse(t: string, tail: string, mattr: nat) returns (r: int, q: Tag)
    requires t != "" && Without(t, "]]>")
    ensures r == 0 && q.kind == CData && q.tag == t
  {
    hide EndsAt, SectionOf, Without, Marked, Enclosed;
    var b := "<![CDATA[" + t + "]]>" + tail;
    CDataEnds(t, tail);
    var len := CountTag(b);
    assert EndsAt(b, CDataSection, 9, |t| + 11);
    assert len == |t| + 12 && b[..len] == "<![CDATA[" + t + "]]>";
    IsWithin("<![CDATA[", t, "]]>");
    r, q := ProcessElem(b[..len], Tag(Ill, "", []), mattr, Tag(Ill, "", []));
    EnclosedText("<![CDATA[", t, "]]>", CData, r, q);
  }

  /** A document type is cut off at its end as well, and all of it becomes the name of the tag. */
  method DocTypeAndParse(w: string, t: string, subset: Option<string>, u: string, tail: string, mattr: nat)
    returns (r: int, q: Tag)
    requires Declares(w, t) && (t == "" ==> subset == None && u == "") && NoMarkup(u)
    requires subset.Some? ==> '[' !in subset.value && ']' !in subset.value
    ensures r == 0 && q.kind == Att && q.tag == w[1..] + (t + SubsetText(subset) + u)
  {
    hide EndsAt, SectionOf, SubsetText, IsSpace, IsXml1Char;
    var x := t + SubsetText(subset) + u;
    var b := "<" + w + x + ">" + tail;
    DocTypeEnds(w, t, subset, u, tail);
    var len := CountTag(b);
    assert EndsAt(b, DocType, 9, |x| + 9);
    var s := b[..len];
    assert s == "<" + w + x + ">";
    DeclaredIs(w, t, s);
    r, q := ProcessElem(s, Tag(Ill, "", []), mattr, Tag(Ill, "", []));
  }

  lemma DeclaredIs(w: string, t: string, s: string)
    requires Declares(w, t) && |s| >= 10 && s[0] == '<' && s[1..9] == w
    ensures Marked(s, 0, "<!") && !Marked(s, 0, "<!--") && !Marked(s, 0, "<![CDATA[")
  {
    assert s[1] == s[1..9][0] == w[0] && s[2] == s[1..9][1] == w[1];
    assert s[0..4][2] == s[2] && s[0..9][2] == s[2];
    assert s[0..2] == "<!";
  }

  lemma IsWithin(start: string, t: string, end: string)
    ensures Marked(start + t + end, 0, start) && Marked(start + t + end, |start| + |t|, end)
  {
    var b := start + t + end;
    assert b[0..|start|] == start && b[|start| + |t|..|b|] == end;
  }

  /** The first end marker is the one behind the text. */
  lemma EnclosedText(start: string, t: string, end: string, kind: Type, r: int, q: Tag)
    requires Enclosed(start + t + end, |start|, end, kind, r, q) && (end == "-->" || end == "]]>") && Without(t, end)
    ensures r == 0 && q.kind == kind && q.tag == t
  {
    var b, n := start + t + end, |start|;
    IsWithin(start, t, end);
    var e := n + |q.tag|;
    assert Marked(b, n + |t|, end) && e <= n + |t|;
    forall k: nat | n <= k < n + |t| ensures !Marked(b, k, end) {
      NoMarkerIn(start, t, end, k);
    }
    assert b[n..n + |t|] == t;
  }

  lemma NoMarkerIn(start: string, t: string, end: string, k: nat)
    requires (end == "-->" || end == "]]>") && Without(t, end) && |start| <= k < |start| + |t|
    ensures !Marked(start + t + end, k, end)
  {
    var b, n := start + t + end, |start|;
    assert b[k..k + 3][2] == b[k + 2];
    if k + 3 <= n + |t| {
      assert b[k..k + 3] == t[k - n..k - n + 3];
      assert !Marked(t, k - n, end);
    } else {
      assert b[k + 2] == end[k + 2 - n - |t|] != '>';
    }
  }

  lemma LegalIsPrintable(p: Tag)
    requires Legal(p)
    ensures Printable(p)
  {
  }
}
