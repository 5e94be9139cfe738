/** `build_html`: the HTML page that shows a result dictionary, one heading
    per format and one coloured box per literal, in dictionary order. Only
    the construction of the page text is modelled; writing it to a file is
    not. */
module Html {
  import opened Counting
  import opened Core

  const Open: string := "<html><body>"
  const Close: string := "</body></html>"

  predicate IsDigit(c: char) {
    '0' <= c <= '9'
  }

  /** The value of a string of decimal digits. */
  function DecimalValue(s: string): nat
    requires forall j :: 0 <= j < |s| ==> IsDigit(s[j])
  {
    if s == [] then 0
    else
      assert IsDigit(s[|s| - 1]);
      10 * DecimalValue(s[..|s| - 1]) + (s[|s| - 1] as int - '0' as int)
  }

  /** `str(n)` for a count: decimal digits without leading zeros. */
  function DecimalString(n: nat): (s: string)
    ensures |s| >= 1 && (|s| > 1 ==> s[0] != '0')
    ensures forall j :: 0 <= j < |s| ==> IsDigit(s[j])
  {
    var last := ['0' + (n % 10) as char];
    if n < 10 then last else DecimalString(n / 10) + last
  }

  /** Reading the digits back gives the count: the text of a box shows the
      number of occurrences exactly. */
  lemma {:induction false} DecimalRoundTrip(n: nat)
    ensures DecimalValue(DecimalString(n)) == n
  {
    var s := DecimalString(n);
    if n >= 10 {
      DecimalRoundTrip(n / 10);
      assert s[..|s| - 1] == DecimalString(n / 10);
    }
  }

  /** `<h1>{color_type}</h1>` */
  function Heading(format: string): string {
    "<h1>" + format + "</h1>"
  }

  /** The box of one literal: its colour as background and
      `{color}:{count}` as text. */
  function Div(e: Entry): string {
    "<div style=\"background-color:" + e.color + ";width:100px;height:100px;\">"
    + e.color + ":" + DecimalString(e.count) + "</div>"
  }

  /** The boxes of a table, in table order. */
  function Divs(t: Table): string {
    if t == [] then "" else Divs(t[..|t| - 1]) + Div(t[|t| - 1])
  }

  /** The heading of a format followed by the boxes of its table. */
  function Section(ft: FormatTable): string {
    Heading(ft.format) + Divs(ft.table)
  }

  /** The sections of a report, in dictionary order. */
  function Sections(m: Report): string {
    if m == [] then "" else Sections(m[..|m| - 1]) + Section(m[|m| - 1])
  }

  /** The whole page. */
  function Page(m: Report): string {
    Open + Sections(m) + Close
  }

  /** The page text, grown piece by piece: the opening tags, then for each
      format its heading and a box per literal, then the closing tags. */
  method BuildHtml(matches: Report) returns (html: string)
    ensures html == Page(matches)
  {
    html := "<html><body>";
    assert html == Open + Sections([]);
    for i := 0 to |matches|
      invariant html == Open + Sections(matches[..i])
    {
      html := html + Heading(matches[i].format);
      ghost var head := html;
      var table := matches[i].table;
      for j := 0 to |table|
        invariant html == head + Divs(table[..j])
      {
        NextDiv(head, table, j);
        html := html + Div(table[j]);
      }
      NextSection(matches, i);
    }
    assert matches[..|matches|] == matches;
    html := html + "</body></html>";
  }

  /** One step of the inner loop: the text so far plus the next box. */
  lemma NextDiv(head: string, t: Table, j: nat)
    requires j < |t|
    ensures head + Divs(t[..j]) + Div(t[j]) == head + Divs(t[..j + 1])
  {
    assert t[..j + 1][..j] == t[..j];
    Assoc(head, Divs(t[..j]), Div(t[j]));
  }

  /** One step of the outer loop: the text so far plus the next section. */
  lemma NextSection(m: Report, i: nat)
    requires i < |m|
    ensures Open + Sections(m[..i]) + Heading(m[i].format) + Divs(m[i].table[..|m[i].table|])
            == Open + Sections(m[..i + 1])
  {
    assert m[i].table[..|m[i].table|] == m[i].table;
    assert m[..i + 1][..i] == m[..i];
    Assoc(Open, Sections(m[..i]), Section(m[i]));
    Assoc(Open + Sections(m[..i]), Heading(m[i].format), Divs(m[i].table));
  }

  // ---------------------------------------------------------------------
  // Properties of the page

  /** The page opens with `<html><body>` and closes with `</body></html>`. */
  lemma PageFrame(m: Report)
    ensures |Page(m)| >= |Open| + |Close|
    ensures Page(m)[..|Open|] == "<html><body>"
    ensures Page(m)[|Page(m)| - |Close|..] == "</body></html>"
  {
  }

  /** An empty dictionary gives only the frame. */
  lemma EmptyPage()
    ensures Page([]) == "<html><body></body></html>"
  {
  }

  /** A format with an empty table contributes only its heading. */
  lemma EmptyTableSection(format: string)
    ensures Section(FormatTable(format, [])) == "<h1>" + format + "</h1>"
  {
  }

  /** Regrouping of text joined from three pieces. */
  lemma Assoc(x: string, y: string, z: string)
    ensures x + y + z == x + (y + z)
  {
  }

  lemma {:induction false} DivsAppend(a: Table, b: Table)
    ensures Divs(a + b) == Divs(a) + Divs(b)
    decreases |b|
  {
    if b == [] {
      assert a + b == a;
      assert Divs(a) + "" == Divs(a);
    } else {
      var c := b[..|b| - 1];
      assert (a + b)[..|a + b| - 1] == a + c;
      assert (a + b)[|a + b| - 1] == b[|b| - 1];
      DivsAppend(a, c);
      Assoc(Divs(a), Divs(c), Div(b[|b| - 1]));
    }
  }

  lemma {:induction false} SectionsAppend(a: Report, b: Report)
    ensures Sections(a + b) == Sections(a) + Sections(b)
    decreases |b|
  {
    if b == [] {
      assert a + b == a;
      assert Sections(a) + "" == Sections(a);
    } else {
      var c := b[..|b| - 1];
      assert (a + b)[..|a + b| - 1] == a + c;
      assert (a + b)[|a + b| - 1] == b[|b| - 1];
      SectionsAppend(a, c);
      Assoc(Sections(a), Sections(c), Section(b[|b| - 1]));
    }
  }

  /** Every format has its heading in the page, in dictionary order, and
      right after it come the boxes of its table and nothing else before the
      next heading. */
  lemma PageLayout(m: Report, k: nat)
    requires k < |m|
    ensures Page(m) == Open + Sections(m[..k]) + Heading(m[k].format) + Divs(m[k].table)
                       + Sections(m[k + 1..]) + Close
  {
    var a, x, b := m[..k], m[k], m[k + 1..];
    Decompose(m, k);
    SectionsAppend(a, [x] + b);
    SectionsAppend([x], b);
    assert [x][..0] == [];
    assert Sections([x]) == "" + Section(x);
    assert "" + Section(x) == Section(x);
    PageLayoutRegroup(Open, Sections(a), Heading(x.format), Divs(x.table), Sections(b), Close);
  }

  /** A sequence split around its element at `j`. */
  lemma Decompose<T>(s: seq<T>, j: nat)
    requires j < |s|
    ensures s == s[..j] + ([s[j]] + s[j + 1..])
  {
    assert s[j..] == [s[j]] + s[j + 1..];
    assert s == s[..j] + s[j..];
  }

  /** The regrouping `PageLayout` needs, on text whose pieces are opaque. */
  lemma PageLayoutRegroup(o: string, a: string, h: string, d: string, b: string, c: string)
    ensures o + (a + (h + d + b)) + c == o + a + h + d + b + c
  {
  }

  /** The boxes of a table are one box per entry, in table order. */
  lemma DivsLayout(t: Table, j: nat)
    requires j < |t|
    ensures Divs(t) == Divs(t[..j]) + Div(t[j]) + Divs(t[j + 1..])
  {
    Decompose(t, j);
    DivsAround(t[..j], t[j], t[j + 1..]);
  }

  lemma DivsAround(a: Table, x: Entry, b: Table)
    ensures Divs(a + ([x] + b)) == Divs(a) + Div(x) + Divs(b)
  {
    DivsAppend(a, [x] + b);
    DivsAppend([x], b);
    assert [x][..0] == [];
    assert Divs([x]) == "" + Div(x);
    assert "" + Div(x) == Div(x);
    Assoc(Divs(a), Div(x), Divs(b));
  }

  /** The page of a successful extraction: the `hex` heading and its boxes,
      then the four headings of the formats without a pattern, each with no
      box. */
  lemma ReportPage(css: string, sel: Selector)
    requires Extract(css, sel).Success?
    ensures var m := Extract(css, sel).value;
            && Page(m) == Open + Section(m[0]) + Section(m[1]) + Section(m[2]) + Section(m[3])
                          + Section(m[4]) + Close
            && Section(m[0]) == Heading("hex") + Divs(m[0].table)
            && Section(m[1]) == Heading("rgb") && Section(m[2]) == Heading("rgba")
            && Section(m[3]) == Heading("hsl") && Section(m[4]) == Heading("hsla")
  {
    var m := Extract(css, sel).value;
    ReportShape(css, sel);
    FiveSections(m);
    forall f | 1 <= f < 5 ensures Section(m[f]) == Heading(FormatNames[f]) {
      assert Heading(FormatNames[f]) + "" == Heading(FormatNames[f]);
    }
  }

  /** The text of a five-key report, section by section. */
  lemma FiveSections(m: Report)
    requires |m| == 5
    ensures Page(m) == Open + Section(m[0]) + Section(m[1]) + Section(m[2]) + Section(m[3])
                       + Section(m[4]) + Close
  {
    assert m[..5] == m;
    forall k | 1 <= k <= 5 ensures m[..k][..k - 1] == m[..k - 1] && m[..k][k - 1] == m[k - 1] { }
    assert m[..0] == [];
    assert Sections(m[..1]) == "" + Section(m[0]);
    assert "" + Section(m[0]) == Section(m[0]);
    assert Sections(m[..2]) == Section(m[0]) + Section(m[1]);
    assert Sections(m[..3]) == Section(m[0]) + Section(m[1]) + Section(m[2]);
    assert Sections(m[..4]) == Section(m[0]) + Section(m[1]) + Section(m[2]) + Section(m[3]);
    assert Sections(m) == Section(m[0]) + Section(m[1]) + Section(m[2]) + Section(m[3]) + Section(m[4]);
    FiveSectionsRegroup(Open, Section(m[0]), Section(m[1]), Section(m[2]), Section(m[3]), Section(m[4]), Close);
  }

  /** The regrouping `FiveSections` needs. */
  lemma FiveSectionsRegroup(o: string, s0: string, s1: string, s2: string, s3: string, s4: string, c: string)
    ensures o + (s0 + s1 + s2 + s3 + s4) + c == o + s0 + s1 + s2 + s3 + s4 + c
  {
  }
}
