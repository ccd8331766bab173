# tabular-ifconfig in Dafny

A model of `tabular-ifconfig`, a small Python script that prints the network
adapters of a Linux machine as a coloured table sorted by total traffic.
The script exists twice in the repository: `utils/tabular-ifconfig.py` and
`ipaddress.py`. The second file is the same code with the comments removed,
so one model covers both. The table below cites `utils/tabular-ifconfig.py`,
and a few rows cite `ipaddress.py` as well.

The script works in stages, and the model follows them in order:

1. **Parse `ip a`** (`Addresses`, in `addresses.dfy`). The script reads the
   listing line by line:
   - a numbered header line (`^\d+:\s`) flushes the current record and starts
     a new one;
   - a line holding both `inet ` and `scope global` sets IPv4, and Gateway
     along with it;
   - a `link/` line sets the MAC when its regex matches;
   - the last record is flushed after the loop.

   `ParseListing` is that loop, and it is proved equal to a reference
   definition. The reference cuts the listing into blocks at the header lines
   (`Grouping`, in `grouping.dfy`) and builds one record per block
   (`RecordOf`). In each block, the last global `inet` line and the last
   matching `link/` line win.
2. **Enrich from `ifconfig`** (`InterfaceStats`, in `interface_stats.dfy`).
   For every adapter, the regex `^NAME.*?(RX packets.*?TX packets.*?)\n\n`,
   with DOTALL and MULTILINE, is turned into an explicit leftmost search
   (`Locate`), and `LocateIsSearch` proves it is the leftmost match. The
   `RX packets <n> bytes <m>` and `TX packets <n> bytes <m>` counts in the
   block are then printed by `human_readable`.
3. **Format and re-parse byte counts** (`ByteUnits`, in `byte_units.dfy`).
   - `human_readable` divides by 1024 until the count is below 1024, stopping
     at TB, else it uses PB. It then prints one decimal.
   - `total_bytes` parses the printed text back into a sort key.

   Both are modelled with exact integers and reals, so there are no floats.
   The division is kept as a pair: the count and the scale 1024^k. `.1f` is
   rounding to the nearest tenth with ties to even.
4. **Sort** (`Ordering`, in `ordering.dfy`). `list.sort(key=..., reverse=True)`
   is modelled as a stable insertion sort by falling key.
5. **Print** (`Report`, in `report.dfy`). It prints the header row, one row per
   adapter with left-justified cells of widths 20/20/20/20/15/15 and colours
   chosen by presence, and the warning line when `ifconfig` is missing.
   `Run` composes all five stages.

`Text` (`text.dfy`) states the Python string operations the script uses over
`seq<char>`:
- `splitlines`, `split()`, `split(c)[0]`, `strip` and `ljust`;
- `in`, plain decimal `int()`, and `str()`.

`split(':')[1]` on a header line is `Addresses.RawName`.

Behaviour worth knowing, all of it proved:
- An adapter whose name is a prefix of another's can be given the other
  adapter's statistics block. The name is only anchored at a line start
  (`PrefixNameSharesBlock`).
- Counts of 1024^5 bytes or more print in PB, where the number is not
  capped at 1024: below 2^53, where the model is exact, a count of 2^52
  bytes prints as `4.0 PB`. `total_bytes` has no PB entry, so such a count
  adds 0 to its adapter's sort key (`PetabytesSortAsZero`). The adapter
  still sorts by its other count.
- Below PB, the sort key of the printed value is within 0.05·1024^k of the
  true count (`RoundTripError`).
- Each count's key never decreases as that count grows (`SortKeyMonotone`).
  The sort key of an adapter, however, is the sum of two separately rounded
  keys, and that sum can put adapters in the opposite order to their raw
  totals (`SumOfKeysCanInvert`). 1075 B in and 1075 B out (2150 B) sort as
  2048. 2100 B in and 0 B out (2100 B) sort as 2150.4, so they come first.

## Model

| member | source | states |
|---|---|---|
| ByteUnits.HumanReadable | utils/tabular-ifconfig.py:39-52 | the loop over the units, dividing by 1024, returns exactly `HumanReadableOf`: "N/A" for a string `int()` rejects, else the count with one decimal in the unit it settles on |
| ByteUnits.UnitIndex | utils/tabular-ifconfig.py:46-50 | the unit `human_readable` settles on: B below 1024, then KB, MB, GB and TB at each further factor of 1024, and PB from 1024^5 on |
| ByteUnits.Tenths | utils/tabular-ifconfig.py:47-49 | the tenths `.1f` prints for b / 1024^k in the unit chosen, rounded half to even |
| ByteUnits.FormatTenths | utils/tabular-ifconfig.py:48 | `f"{x:.1f}"` for a value of t tenths: the integer part, a dot and one digit |
| ByteUnits.FormatBytes | utils/tabular-ifconfig.py:46-50 | the text `human_readable` returns for a count: the number with one decimal, a space and the unit |
| ByteUnits.HumanReadableOf | utils/tabular-ifconfig.py:44-52 | `human_readable` as a function: "N/A" when `int()` fails, else the formatted count |
| ByteUnits.UnitIndexIsSmallest | utils/tabular-ifconfig.py:46-50 | the unit is the smallest k in B..TB with b < 1024^(k+1); every larger count goes to PB with no further division |
| ByteUnits.UnitIndexIs | utils/tabular-ifconfig.py:46-50 | conversely, a count in [1024^k, 1024^(k+1)) is printed in unit k, and every count ≥ 1024^5 in PB |
| ByteUnits.RoundHalfEven | utils/tabular-ifconfig.py:48 | `.1f` rounding: the result is within half a step of the exact quotient, and an exact tie goes to the even neighbour |
| ByteUnits.RoundHalfEvenMonotone | utils/tabular-ifconfig.py:48 | rounding never reverses the order of two counts |
| ByteUnits.SmallCountInBytes | utils/tabular-ifconfig.py:45-48 | a count b below 1024 prints as `"<b>.0 B"` |
| ByteUnits.HumanReadableNA | utils/tabular-ifconfig.py:44-52 | the result is "N/A" exactly when the argument is not a decimal count ("N/A", "" and letters among such arguments) |
| ByteUnits.FormatExamples | utils/tabular-ifconfig.py:46-50 | worked values: 9999999 B prints as 9.5 MB; 1280 B as 1.2 KB and 1792 B as 1.8 KB (ties to even); 2^52 B, past the last unit, as 4.0 PB |
| ByteUnits.Pow1024Values | utils/tabular-ifconfig.py:59 | the multipliers of the `units` table are 1024^1 … 1024^4 |
| ByteUnits.UnitTable | utils/tabular-ifconfig.py:46-59 | each unit label `human_readable` prints below PB is a key of `units`, mapped to the scale it was printed at |
| ByteUnits.ParseDecimal | utils/tabular-ifconfig.py:63 | `float(num)` on the plain decimal forms, never negative |
| ByteUnits.ParseSize | utils/tabular-ifconfig.py:60-65 | `parse(val)` is never negative |
| ByteUnits.SizeOf | utils/tabular-ifconfig.py:62-65 | `float(num) * units[unit]` for the two words, 0 when the unit is not in the table or the number does not parse; never negative |
| ByteUnits.TotalBytes | utils/tabular-ifconfig.py:54-66 | `total_bytes` is never negative |
| ByteUnits.ParseSizeZeroCases | utils/tabular-ifconfig.py:59-65 | `parse` gives 0 for "N/A", for text that does not split into exactly two words, and for a unit missing from the table, PB included |
| ByteUnits.ParseDecimalOfTenths | utils/tabular-ifconfig.py:48-63 | `float` reads back exactly the tenths that `.1f` wrote |
| ByteUnits.ParseSizeOfFormatBytes | utils/tabular-ifconfig.py:56-63 | `parse(human_readable(b))` is tenths·1024^k/10 below 1024^5, and 0 from there on |
| ByteUnits.RoundTripError | utils/tabular-ifconfig.py:56-63 | below 1024^5, the key of the printed count differs from the count by at most 0.05·1024^k |
| ByteUnits.KeyTenthsMonotone | utils/tabular-ifconfig.py:46-63 | the integer key (ten times the sort key) never decreases as the count grows below 1024^5 |
| ByteUnits.SortKeyMonotone | utils/tabular-ifconfig.py:56-63 | the key `parse` gives one printed count never decreases as that count grows below 1024^5 |
| ByteUnits.SumOfKeysCanInvert | utils/tabular-ifconfig.py:54-66 | `total_bytes` of two printed counts can order adapters against their raw totals: 1075 B + 1075 B gives 2048, while 2100 B + 0 B gives 2150.4 |
| ByteUnits.PetabytesSortAsZero | utils/tabular-ifconfig.py:50-59 | a count of 1024^5 bytes or more prints in PB, and that count adds 0 to its adapter's sort key |
| Text.FindFrom | utils/tabular-ifconfig.py:95 | the search behind `in`: the leftmost occurrence at or after a position, or none |
| Text.Contains | utils/tabular-ifconfig.py:95-99 | the `in` test of the `inet `, `scope global` and `link/` branches: the leftmost search finds an occurrence |
| Text.ContainsOccurs | utils/tabular-ifconfig.py:95 | `pat in s` holds exactly when `pat` occurs somewhere in `s` |
| Text.FirstWhere | utils/tabular-ifconfig.py:96-100 | the leftmost position satisfying a test, which is how `re.search` settles on a match |
| Text.RunLength | utils/tabular-ifconfig.py:96-100 | the longest run of a character class starting at a position (greedy `+`) |
| Text.RunLengthIs | utils/tabular-ifconfig.py:96-100 | a run bounded by the end of the text or by a character outside the class is the longest run |
| Text.Before | utils/tabular-ifconfig.py:81 | `s.split(c)[0]`: the longest prefix without `c`, followed by `c` when shorter than `s` |
| Text.Strip | utils/tabular-ifconfig.py:80 | `strip()`: the text between the leading and trailing whitespace runs, with no whitespace at either end |
| Text.Words | utils/tabular-ifconfig.py:62 | `split()`: non-empty words without whitespace |
| Text.WordsOfPair | utils/tabular-ifconfig.py:48-62 | the text `"<num> <unit>"` that `human_readable` prints splits back into exactly those two words |
| Text.SplitLines | utils/tabular-ifconfig.py:75 | `splitlines()` gives lines without line breaks |
| Text.SplitLinesRoundTrip | utils/tabular-ifconfig.py:75 | for "\n"-separated text, joining the lines with "\n" gives back the text, less a final newline |
| Text.PadRight | utils/tabular-ifconfig.py:136-152 | `f"{s:<w}"`: `s` followed by spaces up to `w`, never shortened |
| Text.IsSpace | utils/tabular-ifconfig.py:62 | the characters `str.split()`, `strip()` and `\s` treat as whitespace (the Unicode whitespace set, including the separators U+001C to U+001F) |
| Text.IsLineBreak | utils/tabular-ifconfig.py:75 | the characters `splitlines()` splits at: `\n`, `\v`, `\f`, `\r`, U+001C to U+001E, U+0085, U+2028 and U+2029 |
| Text.NatToString | utils/tabular-ifconfig.py:48 | the decimal digits of a count, never empty and all ASCII digits |
| Text.ParseNat | utils/tabular-ifconfig.py:45 | `int(s)` on the plain ASCII digit strings that the `\d+` captures supply: it succeeds exactly on non-empty digit strings and reads their value |
| Text.NatToStringValue | utils/tabular-ifconfig.py:48 | the digits printed for n read back as n |
| Text.ParseNatOfNatToString | utils/tabular-ifconfig.py:45-48 | `int(str(n)) == n` |
| Grouping.Lead | utils/tabular-ifconfig.py:75-79 | the lines before the first header: none of them is a header, and the next line is one |
| Grouping.GroupsPartition | utils/tabular-ifconfig.py:75-79 | the blocks laid end to end give back the listing from its first header on; there are no blocks exactly when there is no header |
| Grouping.GroupsWellGrouped | utils/tabular-ifconfig.py:77-79 | each block starts with a header and holds no other |
| Grouping.GroupsFacts | utils/tabular-ifconfig.py:75-106 | one block per header, in the order of the headers |
| Addresses.HeaderHasColon | utils/tabular-ifconfig.py:77-80 | a line that matches the header pattern has the colon that `split(':')[1]` needs |
| Addresses.IsHeader | utils/tabular-ifconfig.py:77 | `re.match(r'^\d+:\s', line)`: digits, a colon, then a whitespace character |
| Addresses.RawName | utils/tabular-ifconfig.py:80 | `line.split(':')[1].strip()`: the text between the first and second colon, stripped |
| Addresses.IsAddressLine | utils/tabular-ifconfig.py:95 | the line holds both `inet ` and `scope global` |
| Addresses.IsLinkLine | utils/tabular-ifconfig.py:99 | the line holds `link/` |
| Addresses.IsAddressChar | utils/tabular-ifconfig.py:96 | the class `[\d\.]`: an ASCII digit or a dot |
| Addresses.IsWordChar | utils/tabular-ifconfig.py:100 | the class `\w` on the ASCII text `ip a` prints: a letter, a digit or `_` |
| Addresses.IsMacChar | utils/tabular-ifconfig.py:100 | the class `[\da-f:]`: an ASCII digit, a lower-case hex letter or a colon |
| Addresses.ResolveName | ipaddress.py:41-51 | the raw name if the system knows it; else the part before '@' if there is an '@' and the system knows that part; else the raw name; so without '@' always the raw name |
| Addresses.InetAddress | utils/tabular-ifconfig.py:96 | a captured IPv4 is a non-empty run of digits and dots |
| Addresses.InetAt | utils/tabular-ifconfig.py:96 | `inet ([\d\.]+)` matches at one position: `inet ` there, followed by at least one digit or dot |
| Addresses.InetAddressIsLeftmost | utils/tabular-ifconfig.py:96 | it is the `[\d\.]+` run after the leftmost `inet ` followed by one, and `None` exactly when the regex matches nowhere |
| Addresses.MacAddress | utils/tabular-ifconfig.py:100-102 | a captured MAC is 17 characters of `[0-9a-f:]` |
| Addresses.MacStart | utils/tabular-ifconfig.py:100 | where the 17 MAC characters begin after `link/\w+\s+` at a position: after the longest word run and the longest whitespace run |
| Addresses.MacAt | utils/tabular-ifconfig.py:100 | `link/\w+\s+([\da-f:]{17})` matches at one position: `link/`, at least one word character, at least one space, then 17 MAC characters |
| Addresses.MacAddressIsLeftmost | utils/tabular-ifconfig.py:100-102 | the MAC comes from the leftmost place where `link/\w+\s+([\da-f:]{17})` matches, and is `None` exactly when it matches nowhere (e.g. `link/none`) |
| Addresses.BlocksWellFormed | utils/tabular-ifconfig.py:75-102 | in a listing whose lines all parse, every block starts with a header and its global `inet` lines carry an address |
| Addresses.HeaderOpensBlock | utils/tabular-ifconfig.py:77-93 | a listing with a header line has at least one record |
| Addresses.LastAddressFacts | utils/tabular-ifconfig.py:93-97 | a block's IPv4 stays "" exactly when no line in it is a global `inet` line, and is otherwise an address |
| Addresses.LastMacFacts | utils/tabular-ifconfig.py:93-102 | a block's MAC stays "" exactly when no `link/` line in it has a MAC match, and is otherwise 17 MAC characters |
| Addresses.LastAddressIsLast | utils/tabular-ifconfig.py:95-97 | the last global `inet` line of a block sets its IPv4 |
| Addresses.LastAddress | utils/tabular-ifconfig.py:95-97 | the IPv4 the repeated `current['IPv4'] = ...` writes leave: the address of the last global `inet` line of the block, "" if none |
| Addresses.IsMacLine | utils/tabular-ifconfig.py:95-102 | a line that sets the MAC: not taken by the `inet` branch, holds `link/`, and the MAC regex matches |
| Addresses.LastMac | utils/tabular-ifconfig.py:99-102 | the MAC the repeated `current['MAC'] = ...` writes leave: that of the last line that sets one, "" if none |
| Addresses.LastMacIsLast | utils/tabular-ifconfig.py:99-102 | the last `link/` line of a block with a MAC match sets its MAC |
| Addresses.RecordOfShape | ipaddress.py:52-59 | a record has Gateway "N/A" exactly when IPv4 is "", and Gateway equal to IPv4 otherwise; its MAC is "" or a MAC; RX and TX are "N/A"; IPv4 and MAC are empty exactly when no line of the block sets them |
| Addresses.RecordOf | utils/tabular-ifconfig.py:75-106 | the record of one block: the resolved header name, the last global IPv4, Gateway equal to it or "N/A", the last matching MAC, RX and TX "N/A" |
| Addresses.Parsed | utils/tabular-ifconfig.py:75-106 | the reference result of the parse: the records of the blocks the header lines cut the listing into |
| Addresses.ParsedRecords | utils/tabular-ifconfig.py:75-106 | the parser yields exactly one record per header line, in input order and including the last one; each is named after its header and has the shape above |
| Addresses.HeaderStep | utils/tabular-ifconfig.py:77-93 | a header line closes the current record and opens a new, empty one |
| Addresses.Fresh | utils/tabular-ifconfig.py:93 | the record a header starts: the resolved name, IPv4 and MAC "", Gateway, RX and TX "N/A" |
| Addresses.RecordOfSnoc | utils/tabular-ifconfig.py:95-102 | a non-header line updates the record of the block it joins, as the loop body does |
| Addresses.ReadStep | utils/tabular-ifconfig.py:95-102 | a non-header line changes only the last record |
| Addresses.ReadLine | utils/tabular-ifconfig.py:95-102 | a global `inet` line sets IPv4 and Gateway to its address; else a `link/` line with a MAC match sets MAC; else nothing changes |
| Addresses.Flushed | utils/tabular-ifconfig.py:78-79 | `if current: adapters.append(current)`, also used for the final flush after the loop |
| Addresses.InvHeader | utils/tabular-ifconfig.py:77-93 | the loop invariant (flushing `current` gives the records of the lines read so far) survives a header line |
| Addresses.InvRead | utils/tabular-ifconfig.py:95-102 | the loop invariant survives any other line |
| Addresses.InvNext | utils/tabular-ifconfig.py:75-102 | in a well-formed listing, the loop invariant survives the next line, whatever it is |
| Addresses.Next | utils/tabular-ifconfig.py:77-102 | one pass of the loop as a function: a header flushes `current` and starts `Fresh`, any other line applies `ReadLine` to `current` if there is one |
| Addresses.ReadOne | utils/tabular-ifconfig.py:77-102 | one pass of the loop body: the new `adapters` and `current` are those of the reference step |
| Addresses.ParseListing | utils/tabular-ifconfig.py:71-106 | the parsing loop with the final flush returns exactly the records of the blocks of the listing |
| InterfaceStats.CaptureEarlier | utils/tabular-ifconfig.py:117 | if `(RX packets.*?TX packets.*?)\n\n` can match after some point, it can match after any earlier point |
| InterfaceStats.Capture | utils/tabular-ifconfig.py:117 | `(RX packets.*?TX packets.*?)\n\n` from a position: from the first `RX packets` to the first blank line after the first `TX packets` after it |
| InterfaceStats.FirstCandidate | utils/tabular-ifconfig.py:117-118 | the first line start where the name matches, `.` matching any character |
| InterfaceStats.NameAt | utils/tabular-ifconfig.py:117 | the adapter name put into the pattern unescaped matches at a position: each character equal, a `.` matching any character |
| InterfaceStats.LineStart | utils/tabular-ifconfig.py:117 | `^` under MULTILINE: the start of the text or just after a newline |
| InterfaceStats.Candidate | utils/tabular-ifconfig.py:117 | a line start where the name matches |
| InterfaceStats.MatchAt | utils/tabular-ifconfig.py:117-118 | the whole pattern matches from a line start: the name matches there and the capture up to the blank line follows it |
| InterfaceStats.Locate | utils/tabular-ifconfig.py:117-120 | `match.group(1)`: the capture after the first line that starts with the name, or none |
| InterfaceStats.LocateIsSearch | utils/tabular-ifconfig.py:117-120 | a block is found exactly when the pattern matches somewhere, and it is the capture of the leftmost match |
| InterfaceStats.LocateFound | utils/tabular-ifconfig.py:117-120 | a found block comes from a match with no match before it |
| InterfaceStats.LocateNotFound | utils/tabular-ifconfig.py:117-120 | no block means no match anywhere |
| InterfaceStats.PrefixNameSharesBlock | utils/tabular-ifconfig.py:117 | a name that begins a longer adapter name finds that adapter's block when its header line comes first |
| InterfaceStats.Count | utils/tabular-ifconfig.py:122-124 | a captured byte count is a non-empty digit string |
| InterfaceStats.CountAt | utils/tabular-ifconfig.py:122-124 | `TAG \d+\s+bytes\s+(\d+)` at one position: the digits captured, or none when the pattern does not match there |
| InterfaceStats.CountIsLeftmost | utils/tabular-ifconfig.py:122-124 | the count comes from the leftmost place where `RX packets \d+\s+bytes\s+(\d+)` matches, and is `None` exactly when it matches nowhere |
| InterfaceStats.EnrichOneFacts | ipaddress.py:68-78 | only RX and TX change: each becomes the size of the count found in the adapter's block, and keeps its value when there is no block or no count |
| InterfaceStats.EnrichOne | utils/tabular-ifconfig.py:115-128 | one adapter after the pass: RX and TX set to `human_readable` of the counts found in its block, each only when found |
| InterfaceStats.FormatBytesNotNA | utils/tabular-ifconfig.py:125-128 | a count that is found is never shown as "N/A" |
| InterfaceStats.EnrichAdapter | utils/tabular-ifconfig.py:117-128 | the loop body for one adapter computes `EnrichOne` |
| InterfaceStats.Enrich | ipaddress.py:68-78 | the loop updates every adapter in place: same length and order, each adapter enriched |
| Ordering.Insert | ipaddress.py:82 | inserting an element adds exactly that element |
| Ordering.SortDesc | ipaddress.py:82 | the sort keeps the length and is a permutation of its input |
| Ordering.InsertSorted | ipaddress.py:82 | inserting into a sorted list keeps it sorted by falling key |
| Ordering.SortDescSorted | ipaddress.py:82 | the result is sorted by falling key |
| Ordering.WithKey | ipaddress.py:82 | the elements with a given key, in order |
| Ordering.InsertWithKey | ipaddress.py:82 | an inserted element goes before every element of the list that has its own key |
| Ordering.SortDescStable | ipaddress.py:82 | the sort is stable: elements with equal keys keep their order |
| Ordering.SortDescTied | ipaddress.py:82 | when every key is equal the order does not change |
| Ordering.WithKeyAll | ipaddress.py:82 | a list whose keys are all k is its own selection for k |
| Ordering.UnmeasuredSortsLast | utils/tabular-ifconfig.py:133 | an adapter with RX and TX "N/A" has key 0 |
| Ordering.Key | utils/tabular-ifconfig.py:133 | the sort key `total_bytes(x['RX'], x['TX'])` |
| Ordering.SortByTraffic | utils/tabular-ifconfig.py:133 | `adapters.sort(key=..., reverse=True)`: the stable sort by falling key |
| Report.RowTexts | ipaddress.py:86-97 | every cell is its shown value padded to its column's width, never cut |
| Report.RowCells | ipaddress.py:86-97 | the name is yellow, and every other cell is grey exactly when it shows "N/A" |
| Report.Shown | utils/tabular-ifconfig.py:140-145 | the six values of a row: the name, IPv4, MAC and Gateway with "" shown as "N/A", RX and TX as they are |
| Report.OrNA | utils/tabular-ifconfig.py:141-143 | `x if x else 'N/A'`: "N/A" for the empty string, else the value |
| Report.HeaderLine | utils/tabular-ifconfig.py:136 | the titles Adapter, IPv4, MAC, Gateway, RX, TX padded to 20/20/20/20/15/15, without colour |
| Report.RowLine | utils/tabular-ifconfig.py:139-153 | a row: the name in yellow; IPv4 and Gateway green, MAC, RX and TX white; each grey when missing; cells padded to their widths |
| Report.WarningLine | utils/tabular-ifconfig.py:156-157 | the grey warning line printed when `ifconfig` is missing |
| Report.VisibleAt | utils/tabular-ifconfig.py:136-153 | cells of fixed widths laid side by side put each cell at the sum of the widths before it |
| Report.VisibleLength | utils/tabular-ifconfig.py:136-153 | the width of a line is the sum of its cells' widths |
| Report.OffsetIs | utils/tabular-ifconfig.py:136 | columns start at 0, 20, 40, 60, 80 and 95 |
| Report.LineAligned | utils/tabular-ifconfig.py:136-153 | a line of padded values that fit their widths is 110 wide, each value at its column's offset |
| Report.HeaderAligned | utils/tabular-ifconfig.py:136 | the header row is exactly 110 characters, each title at its column's offset |
| Report.RowAligned | utils/tabular-ifconfig.py:139-153 | a row whose values fit their columns is 110 wide, each value below its title |
| Report.Enriched | utils/tabular-ifconfig.py:111-130 | the `ifconfig` pass keeps the number of adapters |
| Report.Table | utils/tabular-ifconfig.py:111-133 | the adapters in the order they are printed: enriched, then sorted by traffic |
| Report.Rows | utils/tabular-ifconfig.py:139-153 | one printed row per adapter |
| Report.RowsSnoc | utils/tabular-ifconfig.py:139-153 | printing one more adapter adds its row at the end |
| Report.Lines | utils/tabular-ifconfig.py:135-157 | the printed lines: the header, one row per adapter, and the warning when asked |
| Report.Screen | utils/tabular-ifconfig.py:108-157 | the screen for the parsed adapters and the `ifconfig` outcome, warning exactly when it is missing |
| Report.Print | utils/tabular-ifconfig.py:133-157 | sorting and the printing loop produce the header, the rows of the sorted adapters, and the warning when asked |
| Report.EnrichedIs | utils/tabular-ifconfig.py:111-130 | enrichment from the output, or no change when `ifconfig` is missing or failed |
| Report.Run | utils/tabular-ifconfig.py:69-157 | the whole script produces exactly `Screen` of the parsed listing and of what `ifconfig` gave |
| Report.ScreenShape | ipaddress.py:84-100 | the header, then one row per parsed adapter, then the warning exactly when `ifconfig` is missing |
| Report.TableSorted | ipaddress.py:82 | the rows are the enriched adapters, each exactly once, sorted by falling total, ties in `ip a` order |
| Report.NoStatsKeepsOrder | ipaddress.py:64-96 | without `ifconfig` output the rows keep the `ip a` order and every RX and TX cell is grey "N/A" |
| Report.RowsGreyIffMissing | ipaddress.py:92-96 | in every row of the table, a cell is grey exactly when it shows "N/A" |

## Left out

- Running `ip a` and `ifconfig`, and `shutil.which`: both command outputs are
  inputs. `ifconfig` is `StatsSource`: missing, failed, or its output.
- The terminal itself: the output is a sequence of lines of coloured cells.
  `Printed` gives the escape codes, and no lemma is about them.
- `socket.if_nametoindex`: this OS call is the `valid` parameter.
- `Report.Run`: assumes that adapter names contain no regex metacharacters
  other than `.` when `ifconfig` output is present (`NamesSafe`).
  - A name like `a(b` makes the script raise `re.error`, and the `except`
    stops the loop partway. That path, where only earlier adapters keep
    their updates, is not modelled.
  - With safe names nothing in the loop can raise, so that path cannot
    happen.
- `Report.Run` and `Addresses.ParseListing`: assume a listing on which the
  script does not crash (`WellFormedListing`):
  - no `inet` or matching `link/` line comes before the first header. Such
    a line leaves a record without 'Adapter' and a later `KeyError`;
  - every global `inet` line has an address after `inet `. Otherwise there
    is an `AttributeError`.
- Python's full `int()` and `float()` syntax (signs, underscores,
  surrounding whitespace, exponents, `inf`, `nan`): the model reads only the
  digit strings and the decimals `human_readable` prints.
  - `\d`, `\w` and `\s` are read as ASCII digits and word characters, and
    as Python's whitespace.
- Floating-point rounding of the sort key and of `b /= 1024`: the model is
  exact.
  - For counts below 2^53 the printed values are the same.
  - Keys whose float comparison differs from the exact one are not
    modelled. Rounding can make unequal keys equal or split equal ones, and
    either changes the stable tie order. Neither is modelled.
  - From about 2^1034 bytes, `b /= 1024` raises `OverflowError` and the bare
    `except` returns "N/A". The model prints such counts in PB instead.
- `ByteUnits.TotalBytes` and `ByteUnits.ParseSize`: their own contracts
  only bound the result. What they compute on the values `human_readable`
  prints is stated by `ParseSizeOfFormatBytes`, `RoundTripError`,
  `SortKeyMonotone` and `SumOfKeysCanInvert`.
- The enrichment loop in the source writes the dictionaries in place, and
  the parser's `current` dict is appended by reference. The model uses
  values: no dict is shared between two places, so aliasing is not at play.
