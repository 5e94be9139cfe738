/** `parse_css_for_colors`: turn the format selector into a list of format
    names, count the matches of each selected format's pattern in the
    stylesheet text, and sort every table by descending count. */
module Core {
  import opened HexPattern
  import opened Counting

  /** The exceptions the routine raises. */
  datatype Error = ValueError | KeyError(key: string)

  datatype Outcome<T> = Success(value: T) | Failure(error: Error)

  /** The `color_format` argument: `None`, a string, a list of strings, or
      a value of any other type. */
  datatype Selector = Unset | Single(name: string) | Many(names: seq<string>) | NotStringOrList

  /** The active patterns of the registry. */
  datatype Pattern = HexColour

  /** `SEARCH_PATTERNS`: only the hexadecimal pattern is active; the other
      four formats have no entry. */
  const SearchPatterns: map<string, Pattern> := map["hex" := HexColour]

  /** The keys of every result, in dictionary order. */
  const FormatNames: seq<string> := ["hex", "rgb", "rgba", "hsl", "hsla"]

  /** One key of the result and its frequency table. */
  datatype FormatTable = FormatTable(format: string, table: Table)

  /** The result dictionary, in its iteration order. */
  type Report = seq<FormatTable>

  /** `re.findall(pattern, text)`. */
  function FindAll(p: Pattern, text: string): seq<string> {
    match p
    case HexColour => FindAllHex(text, 0)
  }

  /** The table the routine produces for a selected format. */
  function ColorTable(p: Pattern, css: string): Table {
    SortByCount(Tally(FindAll(p, css)))
  }

  /** The normalisation of `color_format` into a list of names. */
  function FormatList(sel: Selector): (r: Outcome<seq<string>>)
    ensures r.Failure? <==> sel.NotStringOrList? || (sel.Single? && sel.name !in SearchPatterns)
    ensures r.Failure? ==> r.error == ValueError
  {
    match sel
    case Unset => Success(["hex"])
    case Single(n) => if n in SearchPatterns then Success([n]) else Failure(ValueError)
    case Many(ns) => Success(ns)
    case NotStringOrList => Failure(ValueError)
  }

  /** The position of the first name without a pattern (`|names|` if none). */
  function FirstUnknown(names: seq<string>): (k: nat)
    ensures k <= |names|
    ensures forall q :: 0 <= q < k ==> names[q] in SearchPatterns
    ensures k < |names| ==> names[k] !in SearchPatterns
  {
    if names == [] || names[0] !in SearchPatterns then 0 else 1 + FirstUnknown(names[1..])
  }

  predicate AllKnown(names: seq<string>) {
    forall n :: n in names ==> n in SearchPatterns
  }

  /** The unsorted table for `format`: the tally of its matches when it is
      selected, empty otherwise. */
  function Counted(css: string, names: seq<string>, format: string): Table
    requires AllKnown(names)
  {
    if format in names then Tally(FindAll(SearchPatterns[format], css)) else []
  }

  /** The five keys with their unsorted tables. */
  function CountedReport(css: string, names: seq<string>): (m: Report)
    requires AllKnown(names)
    ensures |m| == |FormatNames| && DistinctFormats(m)
  {
    seq(|FormatNames|, f requires 0 <= f < |FormatNames| =>
          FormatTable(FormatNames[f], Counted(css, names, FormatNames[f])))
  }

  /** Every table of a report sorted by descending count. */
  function SortTables(m: Report): (r: Report)
    ensures |r| == |m|
    ensures forall f :: 0 <= f < |m| ==>
              && r[f].format == m[f].format
              && SortedByCount(r[f].table)
              && multiset(r[f].table) == multiset(m[f].table)
  {
    seq(|m|, f requires 0 <= f < |m| => FormatTable(m[f].format, SortByCount(m[f].table)))
  }

  /** What `parse_css_for_colors(css, sel)` returns or raises. */
  function Extract(css: string, sel: Selector): (r: Outcome<Report>)
    ensures r.Failure? && r.error.KeyError? ==> r.error.key !in SearchPatterns
    ensures r.Success? ==> |r.value| == |FormatNames|
  {
    match FormatList(sel)
    case Failure(e) => Failure(e)
    case Success(names) =>
      var k := FirstUnknown(names);
      if k < |names| then Failure(KeyError(names[k]))
      else Success(SortTables(CountedReport(css, names)))
  }

  predicate HasFormat(d: Report, key: string) {
    exists f :: 0 <= f < |d| && d[f].format == key
  }

  predicate DistinctFormats(d: Report) {
    forall f, g :: 0 <= f < g < |d| ==> d[f].format != d[g].format
  }

  /** `d[key] = t` on a dictionary: an existing key keeps its place and takes
      the new table, a new key is added at the end. */
  function Store(d: Report, key: string, t: Table): (r: Report)
    requires DistinctFormats(d)
    ensures HasFormat(d, key) ==>
              |r| == |d| && forall f :: 0 <= f < |d| ==>
                r[f] == if d[f].format == key then FormatTable(key, t) else d[f]
    ensures !HasFormat(d, key) ==> r == d + [FormatTable(key, t)]
  {
    if d == [] then [FormatTable(key, t)]
    else if d[0].format == key then [FormatTable(key, t)] + d[1..]
    else
      assert DistinctFormats(d[1..]) by {
        forall f, g | 0 <= f < g < |d[1..]| ensures d[1..][f].format != d[1..][g].format {
          assert d[1..][f] == d[f + 1] && d[1..][g] == d[g + 1];
        }
      }
      assert HasFormat(d, key) ==> HasFormat(d[1..], key) by {
        if HasFormat(d, key) {
          var f :| 0 <= f < |d| && d[f].format == key;
          assert d[1..][f - 1].format == key;
        }
      }
      assert HasFormat(d[1..], key) ==> HasFormat(d, key) by {
        if HasFormat(d[1..], key) {
          var f :| 0 <= f < |d[1..]| && d[1..][f].format == key;
          assert d[f + 1].format == key;
        }
      }
      [d[0]] + Store(d[1..], key, t)
  }

  /** The routine itself: normalise the selector, tally each selected
      format into the result dictionary, then sort every table. */
  method ParseCssForColors(css: string, sel: Selector) returns (r: Outcome<Report>)
    ensures r == Extract(css, sel)
  {
    var names: seq<string>;
    match sel {
      case Unset =>
        names := ["hex"];
      case Single(n) =>
        if n in SearchPatterns {
          names := [n];
        } else {
          return Failure(ValueError);
        }
      case Many(ns) =>
        names := ns;
      case NotStringOrList =>
        return Failure(ValueError);
    }

    var matches: Report := [FormatTable("hex", []), FormatTable("rgb", []), FormatTable("rgba", []),
                            FormatTable("hsl", []), FormatTable("hsla", [])];
    EmptySelectionReport(css);
    var i := 0;
    while i < |names|
      invariant 0 <= i <= |names|
      invariant AllKnown(names[..i])
      invariant matches == CountedReport(css, names[..i])
    {
      var name := names[i];
      if name !in SearchPatterns {
        ExtractOfUnknownName(css, sel, names, i);
        return Failure(KeyError(name));
      }
      assert names[..i + 1] == names[..i] + [name];
      StoreCounted(css, names[..i], name, matches);
      matches := Store(matches, name, Tally(FindAll(SearchPatterns[name], css)));
      i := i + 1;
    }
    assert names[..i] == names;

    ghost var counted := matches;
    var j := 0;
    while j < |matches|
      invariant 0 <= j <= |matches| == |counted|
      invariant forall f :: 0 <= f < j ==>
                  matches[f] == FormatTable(counted[f].format, SortByCount(counted[f].table))
      invariant forall f :: j <= f < |matches| ==> matches[f] == counted[f]
    {
      matches := matches[j := FormatTable(matches[j].format, SortByCount(matches[j].table))];
      j := j + 1;
    }
    SortedEveryTable(counted, matches);
    ExtractOfKnownNames(css, sel, names);
    return Success(matches);
  }

  /** The dictionary after the sorting loop: every table sorted in place. */
  lemma SortedEveryTable(counted: Report, matches: Report)
    requires |matches| == |counted|
    requires forall f :: 0 <= f < |matches| ==>
               matches[f] == FormatTable(counted[f].format, SortByCount(counted[f].table))
    ensures matches == SortTables(counted)
  {
  }

  lemma ExtractOfKnownNames(css: string, sel: Selector, names: seq<string>)
    requires FormatList(sel) == Success(names) && AllKnown(names)
    ensures Extract(css, sel) == Success(SortTables(CountedReport(css, names)))
  {
    assert FirstUnknown(names) == |names|;
  }

  lemma ExtractOfUnknownName(css: string, sel: Selector, names: seq<string>, i: nat)
    requires FormatList(sel) == Success(names)
    requires i < |names| && AllKnown(names[..i]) && names[i] !in SearchPatterns
    ensures Extract(css, sel) == Failure(KeyError(names[i]))
  {
  }

  lemma EmptySelectionReport(css: string)
    ensures CountedReport(css, []) ==
              [FormatTable("hex", []), FormatTable("rgb", []), FormatTable("rgba", []),
               FormatTable("hsl", []), FormatTable("hsla", [])]
  {
    var m := CountedReport(css, []);
    assert m[0] == FormatTable("hex", []) && m[1] == FormatTable("rgb", []);
    assert m[2] == FormatTable("rgba", []) && m[3] == FormatTable("hsl", []);
    assert m[4] == FormatTable("hsla", []);
  }

  /** Storing the tally of one more selected name into the result
      dictionary gives the report of the longer selection. */
  lemma StoreCounted(css: string, names: seq<string>, name: string, m: Report)
    requires AllKnown(names) && name in SearchPatterns
    requires m == CountedReport(css, names)
    ensures AllKnown(names + [name])
    ensures Store(m, name, Tally(FindAll(SearchPatterns[name], css))) == CountedReport(css, names + [name])
  {
    assert m[0].format == name;
    var r := Store(m, name, Tally(FindAll(SearchPatterns[name], css)));
    var n := CountedReport(css, names + [name]);
    forall f | 0 <= f < |m| ensures r[f] == n[f] {
      assert FormatNames[f] in names + [name] <==> FormatNames[f] in names || FormatNames[f] == name;
    }
  }

  // ---------------------------------------------------------------------
  // Properties of the routine

  /** No selector and the string `"hex"` both behave as the list `["hex"]`. */
  lemma DefaultSelectsHex(css: string)
    ensures Extract(css, Unset) == Extract(css, Many(["hex"]))
    ensures Extract(css, Single("hex")) == Extract(css, Many(["hex"]))
  {
  }

  /** `ValueError` is raised exactly for a string that is not a registry key
      (such as `"rgb"`) and for a selector that is neither a string nor a
      list; nothing is matched in that case. */
  lemma ValueErrorCases(css: string, sel: Selector)
    ensures Extract(css, sel) == Failure(ValueError) <==>
              sel.NotStringOrList? || (sel.Single? && sel.name !in SearchPatterns)
  {
  }

  /** A list selector fails exactly when one of its names has no pattern,
      and then with `KeyError` for the first such name, whatever valid names
      precede it. */
  lemma {:induction false} UnknownNameInList(css: string, names: seq<string>)
    ensures Extract(css, Many(names)).Failure? <==>
              exists q :: 0 <= q < |names| && names[q] !in SearchPatterns
    ensures forall q :: 0 <= q < |names| && names[q] !in SearchPatterns &&
                        (forall p :: 0 <= p < q ==> names[p] in SearchPatterns) ==>
              Extract(css, Many(names)) == Failure(KeyError(names[q]))
  {
    var k := FirstUnknown(names);
    forall q | 0 <= q < |names| && names[q] !in SearchPatterns &&
               (forall p :: 0 <= p < q ==> names[p] in SearchPatterns)
      ensures k == q
    {
    }
  }

  /** On success the result has the five keys `hex, rgb, rgba, hsl, hsla`
      in that order; a format is counted when selected and empty otherwise,
      and the four formats without a pattern are always empty. */
  lemma ReportShape(css: string, sel: Selector)
    requires Extract(css, sel).Success?
    ensures |Extract(css, sel).value| == 5
    ensures forall f :: 0 <= f < 5 ==> Extract(css, sel).value[f].format == FormatNames[f]
    ensures forall f :: 0 <= f < 5 && FormatNames[f] !in FormatList(sel).value ==>
              Extract(css, sel).value[f].table == []
    ensures "hex" in FormatList(sel).value ==>
              Extract(css, sel).value[0].table == ColorTable(HexColour, css)
    ensures forall f :: 1 <= f < 5 ==> Extract(css, sel).value[f].table == []
  {
    var names := FormatList(sel).value;
    SortedCountedTables(css, sel);
    assert SortByCount([]) == [];
    forall f | 1 <= f < 5 ensures FormatNames[f] !in names {
      assert FormatNames[f] !in SearchPatterns;
    }
  }

  /** A successful result, key by key. */
  lemma SortedCountedTables(css: string, sel: Selector)
    requires Extract(css, sel).Success?
    ensures var r, names := Extract(css, sel).value, FormatList(sel).value;
            && AllKnown(names) && |r| == 5
            && forall f :: 0 <= f < 5 ==>
                 r[f] == FormatTable(FormatNames[f], SortByCount(Counted(css, names, FormatNames[f])))
  {
    var names := FormatList(sel).value;
    assert FirstUnknown(names) == |names|;
    assert Extract(css, sel).value == SortTables(CountedReport(css, names));
  }

  /** The empty list selects nothing: all five tables are empty. */
  lemma EmptyListSelectsNothing(css: string)
    ensures Extract(css, Many([])) ==
              Success([FormatTable("hex", []), FormatTable("rgb", []), FormatTable("rgba", []),
                       FormatTable("hsl", []), FormatTable("hsla", [])])
  {
    ExtractOfKnownNames(css, Many([]), []);
    EmptySelectionReport(css);
    var m := SortTables(CountedReport(css, []));
    assert |m| == 5;
    assert m[0] == FormatTable("hex", []) && m[1] == FormatTable("rgb", []);
    assert m[2] == FormatTable("rgba", []) && m[3] == FormatTable("hsl", []);
    assert m[4] == FormatTable("hsla", []);
    assert m == [FormatTable("hex", []), FormatTable("rgb", []), FormatTable("rgba", []),
                 FormatTable("hsl", []), FormatTable("hsla", [])];
  }

  /** The `hex` table is the tally of the literals the scan finds: one entry
      per distinct literal with its number of occurrences, counts summing to
      the number of matches; it is sorted by non-increasing count, entries of
      equal count keep first-seen order, and it holds the same entries as the
      unsorted tally. */
  lemma {:induction false} HexTableIsSortedTally(css: string)
    ensures Tallies(ColorTable(HexColour, css), FindAllHex(css, 0))
    ensures SortedByCount(ColorTable(HexColour, css))
    ensures multiset(ColorTable(HexColour, css)) == multiset(Tally(FindAllHex(css, 0)))
    ensures forall c :: WithCount(ColorTable(HexColour, css), c) == WithCount(Tally(FindAllHex(css, 0)), c)
  {
    TallyCounts(FindAllHex(css, 0));
    SortKeepsTally(Tally(FindAllHex(css, 0)), FindAllHex(css, 0));
  }

  /** Every key of the `hex` table is `#` and three or six hex digits, stands
      in the text followed by its end or a non-word character, and its count
      is at least 1 and equals the number of times the scan yields it. */
  lemma {:induction false} HexTableEntries(css: string, i: nat)
    requires i < |ColorTable(HexColour, css)|
    ensures var e := ColorTable(HexColour, css)[i];
            && IsHexLiteral(e.color)
            && e.count >= 1
            && e.count == multiset(FindAllHex(css, 0))[e.color]
            && exists p: nat :: LiteralAt(css, p, |e.color|) && css[p..p + |e.color|] == e.color
                                && FollowedByNonWord(css, p + |e.color|)
  {
    var lits := FindAllHex(css, 0);
    var t := ColorTable(HexColour, css);
    HexTableIsSortedTally(css);
    CountOfDistinct(t, i);
    assert t[i].color in lits;
    MatchesOccurInText(css, t[i].color);
  }

  /** Text without a `#` gives empty tables for every format. */
  lemma NoHashNoColors(css: string, sel: Selector)
    requires forall p :: 0 <= p < |css| ==> css[p] != '#'
    requires Extract(css, sel).Success?
    ensures forall f :: 0 <= f < 5 ==> Extract(css, sel).value[f].table == []
  {
    NoHashNoMatch(css, 0);
    ReportShape(css, sel);
  }

  /** The scan of the documented example finds `#fff` and then `#000`. */
  lemma DocumentedExampleMatches(css: string)
    requires css == "body { background-color: #fff; color: #000; }"
    ensures FindAllHex(css, 0) == ["#fff", "#000"]
  {
    assert css == "body { background-color: " + "#fff" + "; color: " + "#000" + "; }";
    TwoLiterals("body { background-color: ", "#fff", "; color: ", "#000", "; }");
  }

  /** With no selector the result is the `hex` table followed by four
      empty tables. */
  lemma DefaultReport(css: string)
    ensures Extract(css, Unset) ==
              Success([FormatTable("hex", ColorTable(HexColour, css)),
                       FormatTable("rgb", []), FormatTable("rgba", []),
                       FormatTable("hsl", []), FormatTable("hsla", [])])
  {
    ExtractOfKnownNames(css, Unset, ["hex"]);
    HexSelectionReport(css);
    SortHexReport(Tally(FindAll(HexColour, css)));
  }

  lemma HexSelectionReport(css: string)
    ensures CountedReport(css, ["hex"]) ==
              [FormatTable("hex", Tally(FindAll(HexColour, css))),
               FormatTable("rgb", []), FormatTable("rgba", []),
               FormatTable("hsl", []), FormatTable("hsla", [])]
  {
    var m := CountedReport(css, ["hex"]);
    assert m[0] == FormatTable("hex", Tally(FindAll(HexColour, css)));
    assert m[1] == FormatTable("rgb", []) && m[2] == FormatTable("rgba", []);
    assert m[3] == FormatTable("hsl", []) && m[4] == FormatTable("hsla", []);
  }

  lemma SortHexReport(t: Table)
    ensures SortTables([FormatTable("hex", t), FormatTable("rgb", []), FormatTable("rgba", []),
                        FormatTable("hsl", []), FormatTable("hsla", [])]) ==
              [FormatTable("hex", SortByCount(t)), FormatTable("rgb", []), FormatTable("rgba", []),
               FormatTable("hsl", []), FormatTable("hsla", [])]
  {
    assert SortByCount([]) == [];
  }

  /** In the `hex` table, literals seen equally often appear in the order
      of their first occurrence in the text. */
  lemma HexTableTies(css: string, i: nat, j: nat)
    requires i < j < |ColorTable(HexColour, css)|
    requires ColorTable(HexColour, css)[i].count == ColorTable(HexColour, css)[j].count
    ensures var t, lits := ColorTable(HexColour, css), FindAllHex(css, 0);
            && t[i].color in lits && t[j].color in lits
            && FirstIndex(lits, t[i].color) < FirstIndex(lits, t[j].color)
  {
    var lits := FindAllHex(css, 0);
    TallyFirstSeenOrder(lits);
    TiesInFirstSeenOrder(Tally(lits), SortByCount(Tally(lits)), lits, i, j);
  }

  /** Two different literals seen once each keep their order. */
  lemma TwoDistinctLiterals(a: string, b: string)
    requires a != b
    ensures SortByCount(Tally([a, b])) == [Entry(a, 1), Entry(b, 1)]
  {
    assert [a, b][..1] == [a];
    assert Tally([a]) == [Entry(a, 1)];
    assert Tally([a, b]) == [Entry(a, 1), Entry(b, 1)];
    assert SortByCount([Entry(b, 1)]) == [Entry(b, 1)];
  }

  /** The example of the routine's documentation. */
  lemma DocumentedExample()
    ensures Extract("body { background-color: #fff; color: #000; }", Unset) ==
              Success([FormatTable("hex", [Entry("#fff", 1), Entry("#000", 1)]),
                       FormatTable("rgb", []), FormatTable("rgba", []),
                       FormatTable("hsl", []), FormatTable("hsla", [])])
  {
    var css := "body { background-color: #fff; color: #000; }";
    DocumentedExampleMatches(css);
    TwoDistinctLiterals("#fff", "#000");
    DefaultReport(css);
  }
}
