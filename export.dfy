/**
 * The text exporters of a mind map: OPML 2.0 outlines with the attribute
 * values escaped by the five predefined entities of section 4.6 of XML 1.0,
 * Markdown with ATX headings of at most six `#` (section 4.2 of CommonMark),
 * and the names of the downloaded files.
 *
 * Each serialiser is a recursive function here (`OutlineOf`, `MarkdownOf`)
 * and a recursive method that builds `result` with `+=` in a loop over the
 * children, proved equal to it.
 */
module Export {
  import opened MindMaps
  import opened Seqs

  // ---------------------------------------------------------------------------
  // Escaping
  // ---------------------------------------------------------------------------

  /** `s.replace(/c/g, rep)`. */
  function ReplaceAll(s: string, c: char, rep: string): string {
    if s == [] then [] else (if s[0] == c then rep else [s[0]]) + ReplaceAll(s[1..], c, rep)
  }

  /** `escapeXML`: five global replacements, `&` first. */
  function EscapeXML(s: string): string {
    ReplaceAll(ReplaceAll(ReplaceAll(ReplaceAll(ReplaceAll(s, '&', "&amp;"), '<', "&lt;"), '>', "&gt;"), '"', "&quot;"), '\'', "&apos;")
  }

  /** The entity a single character escapes to, or the character itself. */
  function EscapeChar(c: char): string {
    match c
    case '&' => "&amp;"
    case '<' => "&lt;"
    case '>' => "&gt;"
    case '"' => "&quot;"
    case '\'' => "&apos;"
    case _ => [c]
  }

  /** Escaping one character at a time: the reference for `EscapeXML`. */
  function EscapeEach(s: string): string {
    if s == [] then [] else EscapeChar(s[0]) + EscapeEach(s[1..])
  }

  /** Decoding the five entities, left to right: the inverse of escaping. */
  function Unescape(s: string): string {
    if s == [] then []
    else if HasPrefixAt(s, 0, "&amp;") then "&" + Unescape(s[5..])
    else if HasPrefixAt(s, 0, "&lt;") then "<" + Unescape(s[4..])
    else if HasPrefixAt(s, 0, "&gt;") then ">" + Unescape(s[4..])
    else if HasPrefixAt(s, 0, "&quot;") then "\"" + Unescape(s[6..])
    else if HasPrefixAt(s, 0, "&apos;") then "'" + Unescape(s[6..])
    else [s[0]] + Unescape(s[1..])
  }

  predicate HasPrefixAt(s: string, i: nat, p: string) {
    i + |p| <= |s| && s[i..i + |p|] == p
  }

  /** The position `i` of `s` begins one of the five predefined entities. */
  predicate StartsEntity(s: string, i: nat) {
    || HasPrefixAt(s, i, "&amp;") || HasPrefixAt(s, i, "&lt;") || HasPrefixAt(s, i, "&gt;")
    || HasPrefixAt(s, i, "&quot;") || HasPrefixAt(s, i, "&apos;")
  }

  /** Every `&` of `s` begins an entity. */
  predicate AmpsBeginEntities(s: string) {
    forall i :: 0 <= i < |s| && s[i] == '&' ==> StartsEntity(s, i)
  }

  /** Safe as an attribute value: no raw markup or quote characters, and every `&` begins an entity. */
  predicate Escaped(s: string) {
    '<' !in s && '>' !in s && '"' !in s && '\'' !in s && AmpsBeginEntities(s)
  }

  lemma {:induction false} ReplaceAllAppend(a: string, b: string, c: char, rep: string)
    ensures ReplaceAll(a + b, c, rep) == ReplaceAll(a, c, rep) + ReplaceAll(b, c, rep)
  {
    if a == [] {
      assert a + b == b;
    } else {
      assert (a + b)[1..] == a[1..] + b;
      ReplaceAllAppend(a[1..], b, c, rep);
    }
  }

  lemma {:induction false} ReplaceAbsent(s: string, c: char, rep: string)
    requires c !in s
    ensures ReplaceAll(s, c, rep) == s
  {
    if s != [] {
      assert s == [s[0]] + s[1..];
      ReplaceAbsent(s[1..], c, rep);
    }
  }

  lemma EscapeXMLAppend(a: string, b: string)
    ensures EscapeXML(a + b) == EscapeXML(a) + EscapeXML(b)
  {
    var s1a, s1b := ReplaceAll(a, '&', "&amp;"), ReplaceAll(b, '&', "&amp;");
    ReplaceAllAppend(a, b, '&', "&amp;");
    var s2a, s2b := ReplaceAll(s1a, '<', "&lt;"), ReplaceAll(s1b, '<', "&lt;");
    ReplaceAllAppend(s1a, s1b, '<', "&lt;");
    var s3a, s3b := ReplaceAll(s2a, '>', "&gt;"), ReplaceAll(s2b, '>', "&gt;");
    ReplaceAllAppend(s2a, s2b, '>', "&gt;");
    var s4a, s4b := ReplaceAll(s3a, '"', "&quot;"), ReplaceAll(s3b, '"', "&quot;");
    ReplaceAllAppend(s3a, s3b, '"', "&quot;");
    ReplaceAllAppend(s4a, s4b, '\'', "&apos;");
  }

  lemma ReplaceSingle(c: char, x: char, rep: string)
    ensures ReplaceAll([c], x, rep) == if c == x then rep else [c]
  {
    assert [c][1..] == [];
  }

  /** The last four replacements leave a string without those characters alone, such as an entity. */
  lemma Plain(s: string)
    requires '<' !in s && '>' !in s && '"' !in s && '\'' !in s
    ensures ReplaceAll(s, '<', "&lt;") == s && ReplaceAll(s, '>', "&gt;") == s
    ensures ReplaceAll(s, '"', "&quot;") == s && ReplaceAll(s, '\'', "&apos;") == s
  {
    ReplaceAbsent(s, '<', "&lt;");
    ReplaceAbsent(s, '>', "&gt;");
    ReplaceAbsent(s, '"', "&quot;");
    ReplaceAbsent(s, '\'', "&apos;");
  }

  /** The chain of replacements escapes a single character exactly once. */
  lemma EscapeXMLChar(c: char)
    ensures EscapeXML([c]) == EscapeChar(c)
  {
    ReplaceSingle(c, '&', "&amp;");
    if c == '&' || c == '<' || c == '>' || c == '"' || c == '\'' {
      Plain(EscapeChar(c));
    }
    ReplaceSingle(c, '<', "&lt;");
    ReplaceSingle(c, '>', "&gt;");
    ReplaceSingle(c, '"', "&quot;");
    ReplaceSingle(c, '\'', "&apos;");
  }

  /**
   * Because `&` is replaced first, the chain never escapes the `&` of an
   * entity it has just produced: it is the same as escaping each character once.
   */
  lemma {:induction false} EscapeXMLIsPerChar(s: string)
    ensures EscapeXML(s) == EscapeEach(s)
  {
    if s != [] {
      assert s == [s[0]] + s[1..];
      EscapeXMLAppend([s[0]], s[1..]);
      EscapeXMLChar(s[0]);
      EscapeXMLIsPerChar(s[1..]);
    }
  }

  /** A string whose `k`-th character differs from `p`'s does not start with `p`. */
  lemma NotPrefix(s: string, p: string, k: nat)
    requires k < |p| && k < |s|
    ensures HasPrefixAt(s, 0, p) ==> s[k] == p[k]
  {
    if |p| <= |s| {
      assert s[..|p|][k] == s[k];
    }
  }

  lemma UnescapeChar(c: char, t: string)
    ensures Unescape(EscapeChar(c) + t) == [c] + Unescape(t)
  {
    var s := EscapeChar(c) + t;
    match c
    case '&' =>
      assert s[..5] == "&amp;" && s[5..] == t;
    case '<' =>
      assert s[1] == 'l';
      NotPrefix(s, "&amp;", 1);
      assert s[..4] == "&lt;" && s[4..] == t;
    case '>' =>
      assert s[1] == 'g';
      NotPrefix(s, "&amp;", 1);
      NotPrefix(s, "&lt;", 1);
      assert s[..4] == "&gt;" && s[4..] == t;
    case '"' =>
      assert s[1] == 'q';
      NotPrefix(s, "&amp;", 1);
      NotPrefix(s, "&lt;", 1);
      NotPrefix(s, "&gt;", 1);
      assert s[..6] == "&quot;" && s[6..] == t;
    case '\'' =>
      assert s[1] == 'a' && s[2] == 'p';
      NotPrefix(s, "&amp;", 2);
      NotPrefix(s, "&lt;", 1);
      NotPrefix(s, "&gt;", 1);
      NotPrefix(s, "&quot;", 1);
      assert s[..6] == "&apos;" && s[6..] == t;
    case _ =>
      assert s[0] == c && s[1..] == t;
      NotPrefix(s, "&amp;", 0);
      NotPrefix(s, "&lt;", 0);
      NotPrefix(s, "&gt;", 0);
      NotPrefix(s, "&quot;", 0);
      NotPrefix(s, "&apos;", 0);
  }

  /** Escaping loses nothing: decoding the entities gives back the original string. */
  lemma {:induction false} UnescapeEscapeXML(s: string)
    ensures Unescape(EscapeXML(s)) == s
  {
    EscapeXMLIsPerChar(s);
    EscapeEachRoundTrip(s);
  }

  lemma {:induction false} EscapeEachRoundTrip(s: string)
    ensures Unescape(EscapeEach(s)) == s
  {
    if s != [] {
      UnescapeChar(s[0], EscapeEach(s[1..]));
      EscapeEachRoundTrip(s[1..]);
      assert s == [s[0]] + s[1..];
    }
  }

  lemma HasPrefixShift(e: string, r: string, i: nat, p: string)
    requires HasPrefixAt(r, i, p)
    ensures HasPrefixAt(e + r, |e| + i, p)
  {
    assert (e + r)[|e| + i..|e| + i + |p|] == r[i..i + |p|];
  }

  lemma StartsEntityShift(e: string, r: string, j: nat)
    requires StartsEntity(r, j)
    ensures StartsEntity(e + r, |e| + j)
  {
    if HasPrefixAt(r, j, "&amp;") { HasPrefixShift(e, r, j, "&amp;"); }
    else if HasPrefixAt(r, j, "&lt;") { HasPrefixShift(e, r, j, "&lt;"); }
    else if HasPrefixAt(r, j, "&gt;") { HasPrefixShift(e, r, j, "&gt;"); }
    else if HasPrefixAt(r, j, "&quot;") { HasPrefixShift(e, r, j, "&quot;"); }
    else { HasPrefixShift(e, r, j, "&apos;"); }
  }

  /** An escaped character holds no raw markup or quote, and an `&` only at its start. */
  lemma EscapeCharShape(c: char)
    ensures var e := EscapeChar(c);
            && |e| > 0 && '<' !in e && '>' !in e && '"' !in e && '\'' !in e
            && (forall i :: 0 < i < |e| ==> e[i] != '&')
  {
  }

  /** An escaped character that starts with `&` begins an entity, whatever follows it. */
  lemma EscapeCharEntity(c: char, r: string)
    requires EscapeChar(c)[0] == '&'
    ensures StartsEntity(EscapeChar(c) + r, 0)
  {
    var t := EscapeChar(c) + r;
    match c
    case '&' => assert HasPrefixAt(t, 0, "&amp;") by { assert t[0..5] == "&amp;"; }
    case '<' => assert HasPrefixAt(t, 0, "&lt;") by { assert t[0..4] == "&lt;"; }
    case '>' => assert HasPrefixAt(t, 0, "&gt;") by { assert t[0..4] == "&gt;"; }
    case '"' => assert HasPrefixAt(t, 0, "&quot;") by { assert t[0..6] == "&quot;"; }
    case '\'' => assert HasPrefixAt(t, 0, "&apos;") by { assert t[0..6] == "&apos;"; }
  }

  lemma {:induction false} EscapeEachNoMarkup(s: string)
    ensures var r := EscapeEach(s); '<' !in r && '>' !in r && '"' !in r && '\'' !in r
  {
    if s != [] {
      EscapeCharShape(s[0]);
      EscapeEachNoMarkup(s[1..]);
    }
  }

  lemma {:induction false} EscapeEachAmps(s: string)
    ensures AmpsBeginEntities(EscapeEach(s))
  {
    if s != [] {
      var e, r := EscapeChar(s[0]), EscapeEach(s[1..]);
      EscapeEachAmps(s[1..]);
      EscapeCharShape(s[0]);
      var t := e + r;
      assert EscapeEach(s) == t;
      forall i | 0 <= i < |t| && t[i] == '&'
        ensures StartsEntity(t, i)
      {
        if i >= |e| {
          var j := i - |e|;
          assert 0 <= j < |r| && r[j] == '&';
          StartsEntityShift(e, r, j);
        } else {
          assert e[i] == '&';
          EscapeCharEntity(s[0], r);
        }
      }
    }
  }

  /** `escapeXML` leaves no raw `<`, `>`, `"` or `'`, and every `&` it leaves begins an entity. */
  lemma EscapeXMLEscaped(s: string)
    ensures Escaped(EscapeXML(s))
  {
    EscapeXMLIsPerChar(s);
    EscapeEachNoMarkup(s);
    EscapeEachAmps(s);
  }

  lemma Assoc(a: string, b: string, c: string)
    ensures a + b + c == a + (b + c)
  {
  }

  // ---------------------------------------------------------------------------
  // Counting characters
  // ---------------------------------------------------------------------------

  function Count(s: string, c: char): nat {
    if s == [] then 0 else (if s[0] == c then 1 else 0) + Count(s[1..], c)
  }

  lemma {:induction false} CountAppend(a: string, b: string, c: char)
    ensures Count(a + b, c) == Count(a, c) + Count(b, c)
  {
    if a == [] {
      assert a + b == b;
    } else {
      assert (a + b)[1..] == a[1..] + b;
      CountAppend(a[1..], b, c);
    }
  }

  lemma {:induction false} CountAbsent(s: string, c: char)
    requires c !in s
    ensures Count(s, c) == 0
  {
    if s != [] {
      CountAbsent(s[1..], c);
    }
  }

  // ---------------------------------------------------------------------------
  // OPML
  // ---------------------------------------------------------------------------

  /** The text shown for a node: its topic, else its text, else "Untitled". */
  function DisplayText(n: Node): (r: string)
    ensures r != ""
    ensures n.topic != "" ==> r == n.topic
    ensures n.topic == "" && n.text != "" ==> r == n.text
    ensures n.topic == "" && n.text == "" ==> r == "Untitled"
  {
    OrElse(n.topic, OrElse(n.text, "Untitled"))
  }

  lemma {:induction false} IndentHasNoMarkup(k: nat)
    ensures '<' !in Indent(k)
  {
    if k > 0 {
      IndentHasNoMarkup(k - 1);
    }
  }

  /** `'  '.repeat(k)`. */
  function Indent(k: nat): string {
    if k == 0 then "" else Indent(k - 1) + "  "
  }

  /** ` name="value"`, the value escaped. */
  function Attr(name: string, value: string): string {
    " " + name + "=\"" + EscapeXML(value) + "\""
  }

  /** An attribute written only when its value is truthy. */
  function OptAttr(name: string, value: string): string {
    if value != "" then Attr(name, value) else ""
  }

  /** The attributes of a node's `<outline>` tag: the text, then `_note` and `url` when truthy. */
  function Attrs(n: Node): string {
    Attr("text", DisplayText(n)) + OptAttr("_note", n.notes) + OptAttr("url", n.url)
  }

  /** The opening tag of a node's outline, without its closing `>` or ` />`. */
  function OpenTag(n: Node, level: nat): string {
    Indent(level + 2) + "<outline" + Attrs(n)
  }

  function CloseTag(level: nat): string {
    Indent(level + 2) + "</outline>"
  }

  /** `convertNodeToOPML(n, level)`. */
  function OutlineOf(n: Node, level: nat): string {
    if n.children == [] then
      OpenTag(n, level) + " />"
    else
      OpenTag(n, level) + ">\n" + ChildOutlines(n.children, level + 1) + CloseTag(level)
  }

  /** Each child's outline followed by a newline, in order. */
  function ChildOutlines(cs: seq<Node>, level: nat): string {
    if cs == [] then "" else ChildOutlines(cs[..|cs| - 1], level) + OutlineOf(cs[|cs| - 1], level) + "\n"
  }

  lemma ChildOutlinesSnoc(cs: seq<Node>, c: Node, level: nat)
    ensures ChildOutlines(cs + [c], level) == ChildOutlines(cs, level) + OutlineOf(c, level) + "\n"
  {
    assert (cs + [c])[..|cs|] == cs;
  }

  /** `convertNodeToOPML`, building `result` with `+=` over the children. */
  method ConvertNodeToOPML(n: Node, level: nat) returns (result: string)
    ensures result == OutlineOf(n, level)
    decreases n
  {
    var indent := Indent(level + 2);
    var text := DisplayText(n);
    var notes := OptAttr("_note", n.notes);
    var url := OptAttr("url", n.url);
    var open := indent + "<outline" + (Attr("text", text) + notes + url);
    assert open == OpenTag(n, level);
    if n.children == [] {
      return open + " />";
    }
    var head := open + ">\n";
    result := head;
    var i := 0;
    while i < |n.children|
      invariant 0 <= i <= |n.children|
      invariant result == head + ChildOutlines(n.children[..i], level + 1)
    {
      var line := ConvertNodeToOPML(n.children[i], level + 1);
      PrefixSnoc(n.children, i);
      ChildOutlinesSnoc(n.children[..i], n.children[i], level + 1);
      Assoc(head, ChildOutlines(n.children[..i], level + 1), line);
      Assoc(head, ChildOutlines(n.children[..i], level + 1) + line, "\n");
      result := result + line + "\n";
      i := i + 1;
    }
    assert n.children[..i] == n.children;
    assert result == head + ChildOutlines(n.children, level + 1);
    result := result + CloseTag(level);
  }

  /** One attribute holds exactly two quotes, whatever its value: the value cannot close them early. */
  lemma AttrCount(name: string, value: string)
    requires '"' !in name && '<' !in name
    ensures Count(Attr(name, value), '"') == 2 && Count(Attr(name, value), '<') == 0
  {
    var e := EscapeXML(value);
    EscapeXMLEscaped(value);
    CountAbsent(e, '"');
    CountAbsent(e, '<');
    CountAbsent(name, '"');
    CountAbsent(name, '<');
    forall c | c == '"' || c == '<'
      ensures Count(Attr(name, value), c) == Count(" ", c) + Count(name, c) + Count("=\"", c) + Count(e, c) + Count("\"", c)
    {
      CountAppend(" ", name, c);
      CountAppend(" " + name, "=\"", c);
      CountAppend(" " + name + "=\"", e, c);
      CountAppend(" " + name + "=\"" + e, "\"", c);
    }
  }

  /** A tag's attributes hold two quotes per attribute written, and no `<`. */
  lemma AttrsCount(n: Node)
    ensures Count(Attrs(n), '"') == 2 + (if n.notes != "" then 2 else 0) + (if n.url != "" then 2 else 0)
    ensures Count(Attrs(n), '<') == 0
  {
    AttrCount("text", DisplayText(n));
    AttrCount("_note", n.notes);
    AttrCount("url", n.url);
    var t, no, u := Attr("text", DisplayText(n)), OptAttr("_note", n.notes), OptAttr("url", n.url);
    CountAppend(t, no, '"');
    CountAppend(t + no, u, '"');
    CountAppend(t, no, '<');
    CountAppend(t + no, u, '<');
  }

  /** The tag names each hold exactly one `<`. */
  lemma TagNamesCount()
    ensures Count("<outline", '<') == 1 && Count("</outline>", '<') == 1
  {
    var o, c := "<outline", "</outline>";
    assert o[1..] == "outline" && c[1..] == "/outline>";
    CountAbsent(o[1..], '<');
    CountAbsent(c[1..], '<');
  }

  lemma OpenTagCount(n: Node, level: nat)
    ensures Count(OpenTag(n, level), '<') == 1
  {
    AttrsCount(n);
    IndentHasNoMarkup(level + 2);
    CountAbsent(Indent(level + 2), '<');
    CountAppend(Indent(level + 2), "<outline", '<');
    TagNamesCount();
    CountAppend(Indent(level + 2) + "<outline", Attrs(n), '<');
  }

  lemma CloseTagCount(level: nat)
    ensures Count(CloseTag(level), '<') == 1
  {
    IndentHasNoMarkup(level + 2);
    CountAbsent(Indent(level + 2), '<');
    CountAppend(Indent(level + 2), "</outline>", '<');
    TagNamesCount();
  }

  /**
   * Every node of the tree opens exactly one `<outline` tag and every node
   * with children closes one `</outline>`: the `<` characters of the output
   * are one per node plus one per node with children.
   */
  lemma {:induction false} OutlineTags(n: Node, level: nat)
    ensures Count(OutlineOf(n, level), '<') == Size(n) + Branches(n)
    decreases n, 1
  {
    var open := OpenTag(n, level);
    OpenTagCount(n, level);
    if n.children == [] {
      CountAppend(open, " />", '<');
      assert SizeAll(n.children) == 0 && BranchesAll(n.children) == 0;
    } else {
      var kids := ChildOutlines(n.children, level + 1);
      ChildOutlineTags(n.children, level + 1);
      CloseTagCount(level);
      CountAppend(open, ">\n", '<');
      CountAppend(open + ">\n", kids, '<');
      CountAppend(open + ">\n" + kids, CloseTag(level), '<');
    }
  }

  lemma {:induction false} ChildOutlineTags(cs: seq<Node>, level: nat)
    ensures Count(ChildOutlines(cs, level), '<') == SizeAll(cs) + BranchesAll(cs)
    decreases cs, 0
  {
    if cs != [] {
      var init, last := cs[..|cs| - 1], cs[|cs| - 1];
      ChildOutlineTags(init, level);
      OutlineTags(last, level);
      CountAppend(ChildOutlines(init, level), OutlineOf(last, level), '<');
      CountAppend(ChildOutlines(init, level) + OutlineOf(last, level), "\n", '<');
    }
  }

  /** The OPML text up to the title, and after the root's outline. */
  const OpmlHead: string := "<?xml version=\"1.0\" encoding=\"UTF-8\"?>\n<opml version=\"2.0\">\n  <head>\n    <title>"
  const OpmlTail: string := "\n  </body>\n</opml>"

  /**
   * The OPML document around the root's outline; the creation and
   * modification date is a parameter. The title slot holds the escaped title,
   * which runs up to the next `<` and decodes back to the title, and the
   * document ends with the root's outline and the closing tags.
   */
  function OpmlDocument(m: MindMap, date: string): (r: string)
    ensures HasPrefixAt(r, 0, OpmlHead)
    ensures exists t :: && HasPrefixAt(r, |OpmlHead|, t)
                        && |OpmlHead| + |t| < |r| && r[|OpmlHead| + |t|] == '<'
                        && Escaped(t)
                        && Unescape(t) == OrElse(m.title, "Mind Map")
    ensures EndsWith(r, OutlineOf(m.root, 0) + OpmlTail)
  {
    var title := OrElse(m.title, "Mind Map");
    EscapeXMLEscaped(title);
    UnescapeEscapeXML(title);
    var r := OpmlHead + EscapeXML(title) + OpmlMiddle(date) + OutlineOf(m.root, 0) + OpmlTail;
    FiveParts(r, OpmlHead, EscapeXML(title), OpmlMiddle(date), OutlineOf(m.root, 0), OpmlTail);
    r
  }

  /** The head elements after the title, with both dates, up to the body's content. */
  function OpmlMiddle(date: string): (r: string)
    ensures |r| > 0 && r[0] == '<'
  {
    "</title>\n    <dateCreated>" + date + "</dateCreated>\n    <dateModified>" + date
    + "</dateModified>\n  </head>\n  <body>\n"
  }

  predicate EndsWith(s: string, suffix: string) {
    |suffix| <= |s| && s[|s| - |suffix|..] == suffix
  }

  /** Where the parts of a five-part concatenation sit in it. */
  lemma FiveParts(r: string, head: string, t: string, middle: string, body: string, tail: string)
    requires r == head + t + middle + body + tail && |middle| > 0
    ensures HasPrefixAt(r, 0, head)
    ensures HasPrefixAt(r, |head|, t) && |head| + |t| < |r| && r[|head| + |t|] == middle[0]
    ensures EndsWith(r, body + tail)
  {
    assert r[..|head|] == head;
    assert r[|head|..|head| + |t|] == t;
    assert r[|r| - |body + tail|..] == body + tail;
  }

  // ---------------------------------------------------------------------------
  // Markdown
  // ---------------------------------------------------------------------------

  /** The heading marker of a node at depth `level`: `# ` at the root, else min(level + 1, 6) `#` and a space. */
  function HeadingPrefix(level: nat): string {
    if level == 0 then "# " else Hashes(if level + 1 < 6 then level + 1 else 6) + " "
  }

  /** `'#'.repeat(k)`. */
  function Hashes(k: nat): string {
    if k == 0 then "" else Hashes(k - 1) + "#"
  }

  lemma {:induction false} HashesShape(k: nat)
    ensures |Hashes(k)| == k && forall i :: 0 <= i < k ==> Hashes(k)[i] == '#'
  {
    if k > 0 {
      HashesShape(k - 1);
    }
  }

  /** An ATX heading marker: one to six `#` followed by a space, `level + 1` of them up to the cap. */
  lemma HeadingPrefixIsAtx(level: nat)
    ensures var p := HeadingPrefix(level);
            && 2 <= |p| <= 7 && p[|p| - 1] == ' '
            && (forall i :: 0 <= i < |p| - 1 ==> p[i] == '#')
            && |p| - 1 == (if level + 1 < 6 then level + 1 else 6)
  {
    HashesShape(if level + 1 < 6 then level + 1 else 6);
  }

  /** A node's heading line: indented by depth below the root. */
  function HeadingLine(n: Node, level: nat): string {
    (if level == 0 then "" else Indent(level)) + HeadingPrefix(level) + DisplayText(n) + "\n"
  }

  /** A blank line and the notes, when truthy. */
  function NotesBlock(n: Node, level: nat): string {
    if n.notes != "" then Indent(level) + "\n" + Indent(level) + n.notes + "\n" else ""
  }

  /** A blank line and a `[Link](url)` line, when the url is truthy. */
  function LinkBlock(n: Node, level: nat): string {
    if n.url != "" then Indent(level) + "\n" + Indent(level) + "[Link](" + n.url + ")\n" else ""
  }

  /** `convertNodeToMarkdown(n, level)`: every node's block ends with a newline. */
  function MarkdownOf(n: Node, level: nat): string
    decreases n, 1
  {
    HeadingLine(n, level) + NotesBlock(n, level) + LinkBlock(n, level)
    + (if n.children != [] then "\n" + ChildMarkdown(n.children, level + 1) else "")
  }

  /** Each child's Markdown, in order. */
  function ChildMarkdown(cs: seq<Node>, level: nat): string
    decreases cs, 0
  {
    if cs == [] then "" else ChildMarkdown(cs[..|cs| - 1], level) + MarkdownOf(cs[|cs| - 1], level)
  }

  predicate EndsWithNewline(s: string) {
    |s| > 0 && s[|s| - 1] == '\n'
  }

  lemma EndsWithNewlineAppend(a: string, b: string)
    requires EndsWithNewline(b)
    ensures EndsWithNewline(a + b)
  {
    assert (a + b)[|a + b| - 1] == b[|b| - 1];
  }

  /** The heading line, and the notes and link blocks when present, each end with a newline. */
  lemma NodeTextEndsWithNewline(n: Node, level: nat)
    ensures EndsWithNewline(HeadingLine(n, level) + NotesBlock(n, level) + LinkBlock(n, level))
  {
    var h, nb, lb := HeadingLine(n, level), NotesBlock(n, level), LinkBlock(n, level);
    EndsWithNewlineAppend((if level == 0 then "" else Indent(level)) + HeadingPrefix(level) + DisplayText(n), "\n");
    if nb != "" {
      EndsWithNewlineAppend(Indent(level) + "\n" + Indent(level) + n.notes, "\n");
      EndsWithNewlineAppend(h, nb);
    }
    assert EndsWithNewline(h + nb);
    if lb != "" {
      EndsWithNewlineAppend(Indent(level) + "\n" + Indent(level) + "[Link](" + n.url, ")\n");
      EndsWithNewlineAppend(h + nb, lb);
    }
  }

  /**
   * Every node's block ends with a newline, so the next block, and each
   * child's heading, starts on a line of its own.
   */
  lemma {:induction false} MarkdownEndsWithNewline(n: Node, level: nat)
    ensures EndsWithNewline(MarkdownOf(n, level))
    decreases n, 1
  {
    var blocks := HeadingLine(n, level) + NotesBlock(n, level) + LinkBlock(n, level);
    MarkdownParts(n, level);
    if n.children != [] {
      ChildMarkdownEndsWithNewline(n.children, level + 1);
      EndsWithNewlineAppend(blocks + "\n", ChildMarkdown(n.children, level + 1));
    } else {
      NodeTextEndsWithNewline(n, level);
    }
  }

  lemma {:induction false} ChildMarkdownEndsWithNewline(cs: seq<Node>, level: nat)
    requires cs != []
    ensures EndsWithNewline(ChildMarkdown(cs, level))
    decreases cs, 0
  {
    var last := cs[|cs| - 1];
    MarkdownEndsWithNewline(last, level);
    EndsWithNewlineAppend(ChildMarkdown(cs[..|cs| - 1], level), MarkdownOf(last, level));
  }

  lemma ChildMarkdownSnoc(cs: seq<Node>, c: Node, level: nat)
    ensures ChildMarkdown(cs + [c], level) == ChildMarkdown(cs, level) + MarkdownOf(c, level)
  {
    assert (cs + [c])[..|cs|] == cs;
  }

  /** `convertNodeToMarkdown`, building `result` with `+=`. */
  method ConvertNodeToMarkdown(n: Node, level: nat) returns (result: string)
    ensures result == MarkdownOf(n, level)
    decreases n, 1
  {
    var indent := Indent(level);
    var prefix := HeadingPrefix(level);
    var text := DisplayText(n);
    result := (if level == 0 then "" else indent) + prefix + text + "\n";
    assert result == HeadingLine(n, level);
    if n.notes != "" {
      result := result + (indent + "\n" + indent + n.notes + "\n");
    }
    assert result == HeadingLine(n, level) + NotesBlock(n, level);
    if n.url != "" {
      result := result + (indent + "\n" + indent + "[Link](" + n.url + ")\n");
    }
    assert result == HeadingLine(n, level) + NotesBlock(n, level) + LinkBlock(n, level);
    MarkdownParts(n, level);
    if n.children != [] {
      result := AppendChildrenMarkdown(result + "\n", n.children, level + 1);
    }
  }

  lemma MarkdownParts(n: Node, level: nat)
    ensures var blocks := HeadingLine(n, level) + NotesBlock(n, level) + LinkBlock(n, level);
            MarkdownOf(n, level)
            == if n.children != [] then blocks + "\n" + ChildMarkdown(n.children, level + 1) else blocks
  {
    var blocks := HeadingLine(n, level) + NotesBlock(n, level) + LinkBlock(n, level);
    if n.children != [] {
      Assoc(blocks, "\n", ChildMarkdown(n.children, level + 1));
    } else {
      assert MarkdownOf(n, level) == blocks + "";
    }
  }

  /** The loop of `convertNodeToMarkdown` over the children: `result += convertNodeToMarkdown(child, level)`. */
  method AppendChildrenMarkdown(result0: string, cs: seq<Node>, level: nat) returns (result: string)
    ensures result == result0 + ChildMarkdown(cs, level)
    decreases cs, 0
  {
    result := result0;
    var i := 0;
    while i < |cs|
      invariant 0 <= i <= |cs|
      invariant result == result0 + ChildMarkdown(cs[..i], level)
    {
      var block := ConvertNodeToMarkdown(cs[i], level);
      PrefixSnoc(cs, i);
      ChildMarkdownSnoc(cs[..i], cs[i], level);
      Assoc(result0, ChildMarkdown(cs[..i], level), block);
      result := result + block;
      i := i + 1;
    }
    assert cs[..i] == cs;
  }

  // ---------------------------------------------------------------------------
  // File names
  // ---------------------------------------------------------------------------

  /** The name of a downloaded text export: the title, or "mindmap" when it is empty, and the extension. */
  function DownloadName(title: string, ext: string): (r: string)
    ensures title != "" ==> r == title + "." + ext
    ensures title == "" ==> r == "mindmap." + ext
  {
    OrElse(title, "mindmap") + "." + ext
  }

  /** The name passed to the image exporter: the given name, or the default when none is given. */
  function ImageName(filename: string, default: string): (r: string)
    ensures filename != "" ==> r == filename
    ensures filename == "" ==> r == default
  {
    OrElse(filename, default)
  }

  function JsonName(m: MindMap): string { DownloadName(m.title, "json") }
  function OpmlName(m: MindMap): string { DownloadName(m.title, "opml") }
  function MarkdownName(m: MindMap): string { DownloadName(m.title, "md") }
  function PngName(filename: string): string { ImageName(filename, "mindmap.png") }
  function SvgName(filename: string): string { ImageName(filename, "mindmap.svg") }

  /** Every download name has a non-empty stem followed by `.` and the extension, so the stem can be read back. */
  lemma DownloadNameParts(title: string, ext: string)
    ensures var r := DownloadName(title, ext);
            var stem := r[..|r| - |ext| - 1];
            && |r| > |ext| + 1 && stem != "" && r == stem + "." + ext
            && stem == (if title != "" then title else "mindmap")
  {
  }
}
