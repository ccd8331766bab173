/** The screen the script prints: a header row, one coloured row per adapter
    in falling order of traffic, and a grey warning when `ifconfig` is not
    installed; and the script as a whole, from the `ip a` listing and what
    `ifconfig` gave to that screen. */
module Report {
  import opened Text
  import opened ByteUnits
  import opened Addresses
  import opened InterfaceStats
  import opened Ordering

  /** The ANSI colours the script uses; `Plain` is text printed without a
      colour code. */
  datatype Color = Plain | Yellow | Green | White | Grey

  /** Text printed in one colour (followed by the reset code when coloured). */
  datatype Cell = Cell(color: Color, text: string)

  /** One printed line, cell after cell. */
  type Line = seq<Cell>

  /** The escape code that switches to a colour. */
  function Code(c: Color): string {
    match c
    case Plain => ""
    case Yellow => "\U{1b}[93m"
    case Green => "\U{1b}[92m"
    case White => "\U{1b}[97m"
    case Grey => "\U{1b}[90m"
  }

  const Reset: string := "\U{1b}[0m"

  /** The characters a line puts on the terminal, escape codes included. */
  function Printed(l: Line): string {
    if l == [] then []
    else Code(l[0].color) + l[0].text + (if l[0].color == Plain then "" else Reset) + Printed(l[1..])
  }

  /** The characters a line shows, without its escape codes. */
  function Visible(l: Line): string {
    if l == [] then [] else l[0].text + Visible(l[1..])
  }

  // ---------------------------------------------------------------------------
  // Columns

  /** Column widths: Adapter, IPv4, MAC and Gateway take 20 characters, RX and
      TX 15. */
  const Widths: seq<nat> := [20, 20, 20, 20, 15, 15]

  const Titles: seq<string> := ["Adapter", "IPv4", "MAC", "Gateway", "RX", "TX"]

  function Sum(ws: seq<nat>): nat {
    if ws == [] then 0 else ws[0] + Sum(ws[1..])
  }

  /** Where each column starts when no value overflows its width. */
  const Offsets: seq<nat> := [0, 20, 40, 60, 80, 95]

  lemma OffsetIs(k: nat)
    requires k < 6
    ensures Offsets[k] == Sum(Widths[..k])
    decreases k
  {
    if k > 0 {
      OffsetIs(k - 1);
      assert Widths[..k] == Widths[..k - 1] + [Widths[k - 1]];
      SumSnoc(Widths[..k - 1], Widths[k - 1]);
    }
  }

  lemma {:induction false} SumSnoc(ws: seq<nat>, w: nat)
    ensures Sum(ws + [w]) == Sum(ws) + w
  {
    if ws != [] {
      SumSnoc(ws[1..], w);
      assert (ws + [w])[1..] == ws[1..] + [w];
    }
  }

  /** `value if value else 'N/A'`. */
  function OrNA(s: string): string {
    if s == "" then "N/A" else s
  }

  /** The six values a row shows, in column order. */
  function Shown(a: Adapter): seq<string> {
    [a.name, OrNA(a.ipv4), OrNA(a.mac), OrNA(a.gateway), a.rx, a.tx]
  }

  /** The header row, printed without colour. */
  function HeaderLine(): Line {
    [ Cell(Plain, PadRight(Titles[0], 20)), Cell(Plain, PadRight(Titles[1], 20)),
      Cell(Plain, PadRight(Titles[2], 20)), Cell(Plain, PadRight(Titles[3], 20)),
      Cell(Plain, PadRight(Titles[4], 15)), Cell(Plain, PadRight(Titles[5], 15)) ]
  }

  /** The row of one adapter: the name in yellow; IPv4 and Gateway in green,
      MAC, RX and TX in white; any of them grey when it is missing. */
  function RowLine(a: Adapter): Line {
    var s := Shown(a);
    [ Cell(Yellow, PadRight(s[0], 20)),
      Cell(if a.ipv4 != "" then Green else Grey, PadRight(s[1], 20)),
      Cell(if a.mac != "" then White else Grey, PadRight(s[2], 20)),
      Cell(if s[3] != "N/A" then Green else Grey, PadRight(s[3], 20)),
      Cell(if a.rx != "N/A" then White else Grey, PadRight(s[4], 15)),
      Cell(if a.tx != "N/A" then White else Grey, PadRight(s[5], 15)) ]
  }

  /** The grey line printed when `ifconfig` is missing. */
  function WarningLine(): Line {
    [Cell(Grey, "[!] Warning: ifconfig not available, skipping RX/TX/Gateway info")]
  }

  /** Each cell of a row holds its value padded with spaces to the column
      width, never cut. */
  lemma RowTexts(a: Adapter)
    ensures |RowLine(a)| == 6
    ensures forall k :: 0 <= k < 6 ==> RowLine(a)[k].text == PadRight(Shown(a)[k], Widths[k])
  {
  }

  /** The name is yellow and any other cell is grey exactly when it shows
      "N/A", provided IPv4 and MAC are not the text "N/A" themselves, which
      parsed records never are. */
  lemma RowCells(a: Adapter)
    requires a.ipv4 != "N/A" && a.mac != "N/A"
    ensures |RowLine(a)| == 6
    ensures RowLine(a)[0].color == Yellow
    ensures forall k :: 1 <= k < 6 ==> (RowLine(a)[k].color == Grey <==> Shown(a)[k] == "N/A")
  {
  }

  /** The visible text of cells laid end to end holds cell `k` at the sum of
      the widths before it, when every cell has its column's width. */
  lemma {:induction false} VisibleAt(l: Line, ws: seq<nat>, k: nat)
    requires |l| == |ws| && forall i :: 0 <= i < |l| ==> |l[i].text| == ws[i]
    requires k < |l|
    ensures |Visible(l)| == Sum(ws)
    ensures Sum(ws[..k]) + ws[k] <= Sum(ws)
    ensures Visible(l)[Sum(ws[..k])..Sum(ws[..k]) + ws[k]] == l[k].text
  {
    VisibleLength(l, ws);
    if k == 0 {
      assert ws[..0] == [];
    } else {
      VisibleAt(l[1..], ws[1..], k - 1);
      assert ws[..k][1..] == ws[1..][..k - 1];
      assert Sum(ws[..k]) == ws[0] + Sum(ws[1..][..k - 1]);
    }
  }

  lemma {:induction false} VisibleLength(l: Line, ws: seq<nat>)
    requires |l| == |ws| && forall i :: 0 <= i < |l| ==> |l[i].text| == ws[i]
    ensures |Visible(l)| == Sum(ws)
  {
    if l != [] {
      VisibleLength(l[1..], ws[1..]);
    }
  }

  /** A line of six cells, each a value padded to its column's width, shows
      every value at its column's offset when none is wider than its column. */
  lemma LineAligned(l: Line, values: seq<string>)
    requires |l| == |values| == 6
    requires forall k :: 0 <= k < 6 ==> l[k].text == PadRight(values[k], Widths[k]) && |values[k]| <= Widths[k]
    ensures |Visible(l)| == 110
    ensures forall k :: 0 <= k < 6 ==>
      Offsets[k] + |values[k]| <= 110 && Visible(l)[Offsets[k]..Offsets[k] + |values[k]|] == values[k]
  {
    assert Sum(Widths) == 110;
    VisibleLength(l, Widths);
    forall k | 0 <= k < 6
      ensures Offsets[k] + |values[k]| <= 110 && Visible(l)[Offsets[k]..Offsets[k] + |values[k]|] == values[k]
    {
      CellAligned(l, values[k], k);
    }
  }

  /** Cell `k` of a line whose cells have their columns' widths shows its
      value at the column's offset. */
  lemma CellAligned(l: Line, value: string, k: nat)
    requires |l| == 6 && k < 6
    requires forall i :: 0 <= i < 6 ==> |l[i].text| == Widths[i]
    requires l[k].text == PadRight(value, Widths[k]) && |value| <= Widths[k]
    ensures |Visible(l)| == 110
    ensures Offsets[k] + |value| <= 110 && Visible(l)[Offsets[k]..Offsets[k] + |value|] == value
  {
    CellAt(l, k);
    PaddedAt(Visible(l), Offsets[k], Widths[k], value);
  }

  /** Cell `k` of a line whose cells have their columns' widths sits at the
      column's offset. */
  lemma CellAt(l: Line, k: nat)
    requires |l| == 6 && k < 6
    requires forall i :: 0 <= i < 6 ==> |l[i].text| == Widths[i]
    ensures |Visible(l)| == 110 && Offsets[k] + Widths[k] <= 110
    ensures Visible(l)[Offsets[k]..Offsets[k] + Widths[k]] == l[k].text
  {
    VisibleAt(l, Widths, k);
    OffsetIs(k);
    WidthsTotal();
  }

  lemma WidthsTotal()
    ensures Sum(Widths) == 110
  {
  }

  /** A value padded to width `w` and found at `o` starts there. */
  lemma PaddedAt(v: string, o: nat, w: nat, value: string)
    requires |value| <= w && o + w <= |v| && v[o..o + w] == PadRight(value, w)
    ensures v[o..o + |value|] == value
  {
    assert v[o..o + |value|] == v[o..o + w][..|value|];
  }

  /** The header row is exactly 110 characters wide, each title at its
      column's offset. */
  lemma HeaderAligned()
    ensures |Visible(HeaderLine())| == 110
    ensures forall k :: 0 <= k < 6 ==>
      Visible(HeaderLine())[Offsets[k]..Offsets[k] + |Titles[k]|] == Titles[k]
  {
    LineAligned(HeaderLine(), Titles);
  }

  /** The table lines up: when no value is wider than its column, a row is
      110 characters wide and every value starts at its column's offset,
      exactly below its title. */
  lemma RowAligned(a: Adapter)
    requires forall k :: 0 <= k < 6 ==> |Shown(a)[k]| <= Widths[k]
    ensures |Visible(RowLine(a))| == 110
    ensures forall k :: 0 <= k < 6 ==>
      Offsets[k] + |Shown(a)[k]| <= 110 && Visible(RowLine(a))[Offsets[k]..Offsets[k] + |Shown(a)[k]|] == Shown(a)[k]
  {
    RowTexts(a);
    LineAligned(RowLine(a), Shown(a));
  }

  // ---------------------------------------------------------------------------
  // The whole script

  /** The adapters after the `ifconfig` pass: enriched from its output, or
      unchanged when `ifconfig` is missing or failed. */
  function Enriched(adapters: seq<Adapter>, source: StatsSource): (r: seq<Adapter>)
    ensures |r| == |adapters|
  {
    if source.Output? then seq(|adapters|, j requires 0 <= j < |adapters| => EnrichOne(adapters[j], source.text))
    else adapters
  }

  /** The parsed adapters in the order the table lists them. */
  function Table(adapters: seq<Adapter>, source: StatsSource): seq<Adapter> {
    SortByTraffic(Enriched(adapters, source))
  }

  /** The rows of the table, one per adapter in the given order. */
  function Rows(t: seq<Adapter>): (rows: seq<Line>)
    ensures |rows| == |t|
  {
    seq(|t|, j requires 0 <= j < |t| => RowLine(t[j]))
  }

  lemma RowsSnoc(t: seq<Adapter>, i: nat)
    requires i < |t|
    ensures Rows(t[..i + 1]) == Rows(t[..i]) + [RowLine(t[i])]
  {
    var a, b := Rows(t[..i + 1]), Rows(t[..i]) + [RowLine(t[i])];
    forall j | 0 <= j <= i
      ensures a[j] == b[j]
    {
      assert t[..i + 1][j] == t[j];
    }
  }

  /** The lines the script prints: the header, the rows and, when asked for,
      the warning. */
  function Lines(t: seq<Adapter>, warn: bool): seq<Line> {
    [HeaderLine()] + Rows(t) + (if warn then [WarningLine()] else [])
  }

  /** The screen for the parsed adapters and what `ifconfig` gave. */
  function Screen(adapters: seq<Adapter>, source: StatsSource): seq<Line> {
    Lines(Table(adapters, source), source.Missing?)
  }

  /** Every adapter name can go into the `ifconfig` pattern unchanged. */
  predicate NamesSafe(adapters: seq<Adapter>) {
    forall j :: 0 <= j < |adapters| ==> PatternSafe(adapters[j].name)
  }

  /** The end of the script: sort by traffic, print the header, a row per
      adapter and, when `ifconfig` is missing, the warning. */
  method Print(adapters: seq<Adapter>, warn: bool) returns (screen: seq<Line>)
    ensures screen == Lines(SortByTraffic(adapters), warn)
  {
    var sorted := SortByTraffic(adapters);
    screen := [HeaderLine()];
    for i := 0 to |sorted|
      invariant screen == [HeaderLine()] + Rows(sorted[..i])
    {
      RowsSnoc(sorted, i);
      screen := screen + [RowLine(sorted[i])];
    }
    assert sorted[..|sorted|] == sorted;
    if warn {
      screen := screen + [WarningLine()];
    }
  }

  /** The script: parse `ip a`, fill in RX and TX from `ifconfig` when it ran,
      then sort and print. */
  method Run(output: string, source: StatsSource, valid: string -> bool) returns (screen: seq<Line>)
    requires WellFormedListing(SplitLines(output))
    requires source.Output? ==> NamesSafe(Parsed(SplitLines(output), valid))
    ensures screen == Screen(Parsed(SplitLines(output), valid), source)
  {
    var parsed := ParseListing(output, valid);
    var adapters := parsed;
    if source.Output? {
      adapters := Enrich(parsed, source.text);
    }
    EnrichedIs(parsed, source, adapters);
    screen := Print(adapters, source.Missing?);
  }

  lemma EnrichedIs(parsed: seq<Adapter>, source: StatsSource, adapters: seq<Adapter>)
    requires source.Output? ==>
      |adapters| == |parsed| && forall j :: 0 <= j < |parsed| ==> adapters[j] == EnrichOne(parsed[j], source.text)
    requires !source.Output? ==> adapters == parsed
    ensures adapters == Enriched(parsed, source)
  {
  }

  /** The screen is the header, then one row per parsed adapter in table
      order, then the warning exactly when `ifconfig` is missing. */
  lemma ScreenShape(adapters: seq<Adapter>, source: StatsSource)
    ensures var s, t := Screen(adapters, source), Table(adapters, source);
      && |t| == |adapters|
      && |s| == |t| + (if source.Missing? then 2 else 1)
      && s[0] == HeaderLine()
      && (forall j :: 0 <= j < |t| ==> s[j + 1] == RowLine(t[j]))
      && (source.Missing? <==> s[|s| - 1] == WarningLine())
  {
    LinesShape(Table(adapters, source), source.Missing?);
  }

  lemma LinesShape(t: seq<Adapter>, warn: bool)
    ensures var s := Lines(t, warn);
      && |s| == |t| + (if warn then 2 else 1)
      && s[0] == HeaderLine()
      && (forall j :: 0 <= j < |t| ==> s[j + 1] == RowLine(t[j]))
      && (warn <==> s[|s| - 1] == WarningLine())
  {
    var s := Lines(t, warn);
    if !warn {
      if t != [] {
        assert s[|t|] == RowLine(t[|t| - 1]);
        assert |RowLine(t[|t| - 1])| != |WarningLine()|;
      } else {
        assert |HeaderLine()| != |WarningLine()|;
      }
    }
  }

  /** The rows are the enriched adapters sorted by falling total traffic,
      each exactly once, with ties in the order `ip a` listed them. */
  lemma TableSorted(adapters: seq<Adapter>, source: StatsSource, k: real)
    ensures var t, e := Table(adapters, source), Enriched(adapters, source);
      && SortedDesc(t, Key)
      && multiset(t) == multiset(e)
      && WithKey(t, Key, k) == WithKey(e, Key, k)
  {
    SortDescSorted(Enriched(adapters, source), Key);
    SortDescStable(Enriched(adapters, source), Key, k);
  }

  /** Without `ifconfig` output every row shows grey "N/A" traffic and the
      adapters keep the order of the `ip a` listing. */
  lemma NoStatsKeepsOrder(adapters: seq<Adapter>, source: StatsSource)
    requires forall j :: 0 <= j < |adapters| ==> ParsedShape(adapters[j])
    requires !source.Output?
    ensures Table(adapters, source) == adapters
    ensures forall j :: 0 <= j < |adapters| ==>
      RowLine(Table(adapters, source)[j])[4..] == [Cell(Grey, PadRight("N/A", 15)), Cell(Grey, PadRight("N/A", 15))]
  {
    forall j | 0 <= j < |adapters|
      ensures Key(adapters[j]) == 0.0
    {
      UnmeasuredSortsLast(adapters[j]);
    }
    SortDescTied(adapters, Key, 0.0);
  }

  /** Every row of the table is coloured as `RowCells` says: grey exactly in
      the columns that show "N/A". */
  lemma RowsGreyIffMissing(adapters: seq<Adapter>, source: StatsSource)
    requires forall j :: 0 <= j < |adapters| ==> ParsedShape(adapters[j])
    ensures forall j, k :: 0 <= j < |Table(adapters, source)| && 1 <= k < 6 ==>
      (RowLine(Table(adapters, source)[j])[k].color == Grey <==> Shown(Table(adapters, source)[j])[k] == "N/A")
  {
    var t := Table(adapters, source);
    EnrichedAddressesShown(adapters, source);
    SortedAddressesShown(Enriched(adapters, source));
    forall j | 0 <= j < |t|
      ensures forall k :: 1 <= k < 6 ==> (RowLine(t[j])[k].color == Grey <==> Shown(t[j])[k] == "N/A")
    {
      RowCells(t[j]);
    }
  }

  /** IPv4 and MAC are not the text "N/A" themselves. */
  predicate AddressesShown(a: Adapter) {
    a.ipv4 != "N/A" && a.mac != "N/A"
  }

  lemma EnrichedAddressesShown(adapters: seq<Adapter>, source: StatsSource)
    requires forall j :: 0 <= j < |adapters| ==> ParsedShape(adapters[j])
    ensures forall i :: 0 <= i < |Enriched(adapters, source)| ==> AddressesShown(Enriched(adapters, source)[i])
  {
    var e := Enriched(adapters, source);
    assert !IsAddress("N/A") by { assert !IsAddressChar("N/A"[0]); }
    forall i | 0 <= i < |e|
      ensures AddressesShown(e[i])
    {
      if source.Output? {
        EnrichOneFacts(adapters[i], source.text);
      }
    }
  }

  lemma SortedAddressesShown(e: seq<Adapter>)
    requires forall i :: 0 <= i < |e| ==> AddressesShown(e[i])
    ensures forall j :: 0 <= j < |SortByTraffic(e)| ==> AddressesShown(SortByTraffic(e)[j])
  {
    var t := SortByTraffic(e);
    forall j | 0 <= j < |t|
      ensures AddressesShown(t[j])
    {
      assert t[j] in multiset(e);
    }
  }
}
