/** The parser of the `ip a` listing: a line-by-line state machine in which a
    numbered header line starts a new adapter record, a global-scope `inet`
    line sets its IPv4 address (and with it the gateway column), and a `link/`
    line sets its MAC address. The interface-name check the script asks of the
    operating system (`socket.if_nametoindex`) is the parameter `valid`. */
module Addresses {
  import opened Text
  import opened Grouping

  /** One adapter dict of the script, with its keys 'Adapter', 'IPv4', 'MAC',
      'Gateway', 'RX' and 'TX'. The strings "" and "N/A" are the script's own
      markers for a value that was never set. */
  datatype Adapter = Adapter(name: string, ipv4: string, mac: string, gateway: string, rx: string, tx: string)

  // ---------------------------------------------------------------------------
  // Recognising lines

  /** `re.match(r'^\d+:\s', line)`: an interface number, a colon, whitespace. */
  predicate IsHeader(line: string) {
    var n := RunLength(line, 0, IsDigit);
    n >= 1 && n + 1 < |line| && line[n] == ':' && IsSpace(line[n + 1])
  }

  lemma HeaderHasColon(line: string)
    requires IsHeader(line)
    ensures ':' in line
  {
    assert line[RunLength(line, 0, IsDigit)] == ':';
  }

  /** `line.split(':')[1].strip()`: the text between the first and the
      second colon, without surrounding whitespace. */
  function RawName(line: string): string
    requires IsHeader(line)
  {
    HeaderHasColon(line);
    var first := |Before(line, ':')|;
    Strip(Before(line[first + 1..], ':'))
  }

  /** The adapter name the script keeps for a raw header name: the raw name if
      the system knows it, else the part before '@' if the system knows that,
      else the raw name again. */
  function ResolveName(raw: string, valid: string -> bool): (name: string)
    ensures valid(raw) ==> name == raw
    ensures !valid(raw) && '@' in raw && valid(Before(raw, '@')) ==> name == Before(raw, '@')
    ensures !valid(raw) && '@' in raw && !valid(Before(raw, '@')) ==> name == raw
    ensures '@' !in raw ==> name == raw
    ensures name == raw || name == Before(raw, '@')
  {
    var test := if '@' in raw then Before(raw, '@') else raw;
    if valid(raw) then raw
    else if valid(test) then test
    else raw
  }

  /** `'inet ' in line and 'scope global' in line`. */
  predicate IsAddressLine(line: string) {
    Contains(line, "inet ") && Contains(line, "scope global")
  }

  /** `'link/' in line`. */
  predicate IsLinkLine(line: string) {
    Contains(line, "link/")
  }

  /** The class `[\d\.]`. */
  predicate IsAddressChar(c: char) { IsDigit(c) || c == '.' }

  predicate IsAddress(s: string) {
    s != [] && forall k :: 0 <= k < |s| ==> IsAddressChar(s[k])
  }

  /** `inet ([\d\.]+)` matches at index i. */
  predicate InetAt(line: string, i: nat) {
    OccursAt(line, "inet ", i) && i + 5 < |line| && IsAddressChar(line[i + 5])
  }

  /** `re.search(r'inet ([\d\.]+)', line).group(1)`: the longest run of digits
      and dots after the leftmost "inet " that is followed by one; `None` where
      the script would fail on a missing match. */
  function InetAddress(line: string): (r: Option<string>)
    ensures r.Some? ==> IsAddress(r.value)
  {
    match FirstWhere(|line|, 0, (i: nat) => InetAt(line, i))
    case None => None
    case Some(i) => Some(line[i + 5..i + 5 + RunLength(line, i + 5, IsAddressChar)])
  }

  /** The search finds an address exactly when the pattern matches somewhere,
      and then it is the capture at the leftmost match. */
  lemma InetAddressIsLeftmost(line: string)
    ensures InetAddress(line).None? <==> forall i: nat :: !InetAt(line, i)
    ensures InetAddress(line).Some? ==> exists i: nat ::
      && InetAt(line, i) && (forall j: nat :: j < i ==> !InetAt(line, j))
      && InetAddress(line).value == line[i + 5..i + 5 + RunLength(line, i + 5, IsAddressChar)]
  {
    var at := (i: nat) => InetAt(line, i);
    match FirstWhere(|line|, 0, at)
    case None =>
      forall i: nat ensures !InetAt(line, i) {
        if i < |line| {
          assert !at(i);
        }
      }
    case Some(i) =>
      assert at(i);
      forall j: nat | j < i ensures !InetAt(line, j) {
        assert !at(j);
      }
  }

  /** The class `\w`, read as ASCII. */
  predicate IsWordChar(c: char) { IsDigit(c) || 'a' <= c <= 'z' || 'A' <= c <= 'Z' || c == '_' }

  /** The class `[\da-f:]`. */
  predicate IsMacChar(c: char) { IsDigit(c) || 'a' <= c <= 'f' || c == ':' }

  predicate IsMac(s: string) {
    |s| == 17 && forall k :: 0 <= k < 17 ==> IsMacChar(s[k])
  }

  /** Where the 17 MAC characters would start if `link/\w+\s+` matched at i.
      `\w+` and `\s+` can only match the longest runs, since `\w` shares no
      character with `\s`, and `\s` none with `[\da-f:]`. */
  function MacStart(line: string, i: nat): nat
    requires i + 5 <= |line|
  {
    var w := RunLength(line, i + 5, IsWordChar);
    i + 5 + w + RunLength(line, i + 5 + w, IsSpace)
  }

  /** `link/\w+\s+([\da-f:]{17})` matches at index i. */
  predicate MacAt(line: string, i: nat) {
    && OccursAt(line, "link/", i)
    && RunLength(line, i + 5, IsWordChar) >= 1
    && MacStart(line, i) > i + 5 + RunLength(line, i + 5, IsWordChar)
    && MacStart(line, i) + 17 <= |line|
    && forall k :: MacStart(line, i) <= k < MacStart(line, i) + 17 ==> IsMacChar(line[k])
  }

  /** `re.search(r'link/\w+\s+([\da-f:]{17})', line).group(1)`, `None` when
      there is no match. */
  function MacAddress(line: string): (r: Option<string>)
    ensures r.Some? ==> IsMac(r.value)
  {
    match FirstWhere(|line|, 0, (i: nat) => MacAt(line, i))
    case None => None
    case Some(i) => Some(line[MacStart(line, i)..MacStart(line, i) + 17])
  }

  /** The search finds a MAC exactly when the pattern matches somewhere, and
      then it is the 17 characters captured at the leftmost match. */
  lemma MacAddressIsLeftmost(line: string)
    ensures MacAddress(line).None? <==> forall i: nat :: !MacAt(line, i)
    ensures MacAddress(line).Some? ==> exists i: nat ::
      && MacAt(line, i) && (forall j: nat :: j < i ==> !MacAt(line, j))
      && MacAddress(line).value == line[MacStart(line, i)..MacStart(line, i) + 17]
  {
    var at := (i: nat) => MacAt(line, i);
    var first := FirstWhere(|line|, 0, at);
    if first.None? {
      forall i: nat ensures !MacAt(line, i) {
        if i < |line| {
          assert !at(i);
        }
      }
    } else {
      var i := first.value;
      assert at(i);
      forall j: nat | j < i ensures !MacAt(line, j) {
        assert !at(j);
      }
      assert MacAddress(line).value == line[MacStart(line, i)..MacStart(line, i) + 17];
    }
  }

  /** A line that changes the record being built. */
  predicate Updates(line: string) {
    !IsHeader(line) && (IsAddressLine(line) || (IsLinkLine(line) && MacAddress(line).Some?))
  }

  /** A line the script can read: a global-scope inet line that is not a
      header has an address after "inet " (else `re.search(...).group`
      fails). */
  predicate LineParses(line: string) {
    !IsHeader(line) && IsAddressLine(line) ==> InetAddress(line).Some?
  }

  /** What the script needs of the listing to run to the end: every line
      parses, and no line before the first header changes a record (else a
      record without 'Adapter' makes the script fail later). */
  predicate WellFormedListing(lines: seq<string>) {
    && (forall i :: 0 <= i < |lines| ==> LineParses(lines[i]))
    && (forall i :: 0 <= i < |lines| && Updates(lines[i]) ==> exists j :: 0 <= j < i && IsHeader(lines[j]))
  }

  // ---------------------------------------------------------------------------
  // The listing as blocks: the reference the state machine is proved against

  /** A header line and the lines after it up to the next header. */
  type Block = Group<string>

  /** The blocks of a listing; lines before the first header belong to none. */
  function Blocks(lines: seq<string>): seq<Block> {
    Groups(lines, IsHeader)
  }

  predicate BodyParses(body: seq<string>) {
    forall k :: 0 <= k < |body| ==> IsAddressLine(body[k]) ==> InetAddress(body[k]).Some?
  }

  predicate WellFormedBlock(b: Block) {
    IsHeader(b.head) && BodyParses(b.body)
  }

  predicate AllWellFormed(bs: seq<Block>) {
    forall j :: 0 <= j < |bs| ==> WellFormedBlock(bs[j])
  }

  /** The blocks of a listing whose lines parse are well formed. */
  lemma BlocksWellFormed(lines: seq<string>)
    requires forall i :: 0 <= i < |lines| ==> LineParses(lines[i])
    ensures AllWellFormed(Blocks(lines))
  {
    GroupsWellGrouped(lines, IsHeader);
    GroupsFacts(lines, IsHeader, LineParses);
    var bs := Blocks(lines);
    forall j | 0 <= j < |bs|
      ensures WellFormedBlock(bs[j])
    {
      assert WellGrouped(bs[j], IsHeader) && AllOf(bs[j], LineParses);
    }
  }

  /** A listing with a header line has at least one block. */
  lemma HeaderOpensBlock(lines: seq<string>, j: nat)
    requires j < |lines| && IsHeader(lines[j])
    ensures Blocks(lines) != []
  {
    GroupsPartition(lines, IsHeader);
  }

  // ---------------------------------------------------------------------------
  // The record a block describes

  /** The address of the last global-scope inet line of a block, "" if it has
      none: a later such line overwrites an earlier one. */
  function LastAddress(body: seq<string>): string
    requires BodyParses(body)
  {
    if body == [] then ""
    else
      var l := body[|body| - 1];
      if IsAddressLine(l) then InetAddress(l).value
      else
        var init := body[..|body| - 1];
        assert forall k :: 0 <= k < |init| ==> init[k] == body[k];
        LastAddress(init)
  }

  /** A line that sets the MAC: a `link/` line with a match, not taken by the
      inet branch before it. */
  predicate IsMacLine(line: string) {
    !IsAddressLine(line) && IsLinkLine(line) && MacAddress(line).Some?
  }

  /** The MAC of the last line of a block that sets one, "" if none does. */
  function LastMac(body: seq<string>): string
  {
    if body == [] then ""
    else
      var l := body[|body| - 1];
      if IsMacLine(l) then MacAddress(l).value else LastMac(body[..|body| - 1])
  }

  /** A block has an IPv4 address exactly when one of its lines is a
      global-scope inet line, and it is then made of digits and dots. */
  lemma {:induction false} LastAddressFacts(body: seq<string>)
    requires BodyParses(body)
    ensures LastAddress(body) == "" <==> forall k :: 0 <= k < |body| ==> !IsAddressLine(body[k])
    ensures LastAddress(body) != "" ==> IsAddress(LastAddress(body))
  {
    if body != [] {
      var init := body[..|body| - 1];
      assert forall k :: 0 <= k < |init| ==> init[k] == body[k];
      LastAddressFacts(init);
    }
  }

  /** A block has a MAC exactly when one of its lines sets one, and it is
      then 17 MAC characters. */
  lemma {:induction false} LastMacFacts(body: seq<string>)
    ensures LastMac(body) == "" <==> forall k :: 0 <= k < |body| ==> !IsMacLine(body[k])
    ensures LastMac(body) != "" ==> IsMac(LastMac(body))
  {
    if body != [] {
      var init, l := body[..|body| - 1], body[|body| - 1];
      assert body == init + [l];
      LastMacFacts(init);
      NoneSnoc(init, l, IsMacLine);
      if IsMacLine(l) {
        assert |MacAddress(l).value| == 17;
      }
    }
  }

  /** No element of `init + [x]` satisfies `p` exactly when `x` does not and
      no element of `init` does. */
  lemma NoneSnoc<T>(init: seq<T>, x: T, p: T -> bool)
    ensures (forall k :: 0 <= k < |init + [x]| ==> !p((init + [x])[k])) <==>
      !p(x) && forall k :: 0 <= k < |init| ==> !p(init[k])
  {
    var xs := init + [x];
    assert xs[|init|] == x;
    assert forall k :: 0 <= k < |init| ==> xs[k] == init[k];
  }

  /** The IPv4 address of a block is that of its last global-scope inet line. */
  lemma {:induction false} LastAddressIsLast(body: seq<string>, k: nat)
    requires BodyParses(body)
    requires k < |body| && IsAddressLine(body[k])
    requires forall j :: k < j < |body| ==> !IsAddressLine(body[j])
    ensures LastAddress(body) == InetAddress(body[k]).value
    decreases |body|
  {
    if k < |body| - 1 {
      LastAddressIsLast(body[..|body| - 1], k);
    }
  }

  /** The MAC of a block is that of its last `link/` line with a match. */
  lemma {:induction false} LastMacIsLast(body: seq<string>, k: nat)
    requires k < |body| && IsMacLine(body[k])
    requires forall j :: k < j < |body| ==> !IsMacLine(body[j])
    ensures LastMac(body) == MacAddress(body[k]).value
    decreases |body|
  {
    if k < |body| - 1 {
      LastMacIsLast(body[..|body| - 1], k);
    }
  }

  /** The shape of every parsed record: IPv4 is "" with Gateway "N/A", or an
      address that Gateway repeats; MAC is "" or 17 MAC characters; RX and
      TX are "N/A". */
  predicate ParsedShape(a: Adapter) {
    && (if a.ipv4 == "" then a.gateway == "N/A" else IsAddress(a.ipv4) && a.gateway == a.ipv4)
    && (a.mac == "" || IsMac(a.mac))
    && a.rx == "N/A" && a.tx == "N/A"
  }

  /** The record the script builds for a block. */
  function RecordOf(b: Block, valid: string -> bool): Adapter
    requires WellFormedBlock(b)
  {
    var ip := LastAddress(b.body);
    Adapter(ResolveName(RawName(b.head), valid), ip, LastMac(b.body), if ip == "" then "N/A" else ip, "N/A", "N/A")
  }

  /** Every record has the parsed shape; its IPv4 address is missing exactly
      when no line of the block is a global-scope inet line, and its MAC
      exactly when no line of the block sets one. */
  lemma RecordOfShape(b: Block, valid: string -> bool)
    requires WellFormedBlock(b)
    ensures ParsedShape(RecordOf(b, valid))
    ensures RecordOf(b, valid).ipv4 == "" <==> forall k :: 0 <= k < |b.body| ==> !IsAddressLine(b.body[k])
    ensures RecordOf(b, valid).mac == "" <==> forall k :: 0 <= k < |b.body| ==> !IsMacLine(b.body[k])
  {
    LastAddressFacts(b.body);
    LastMacFacts(b.body);
  }

  /** The records of a sequence of blocks, in order. */
  function Records(bs: seq<Block>, valid: string -> bool): (r: seq<Adapter>)
    requires AllWellFormed(bs)
    ensures |r| == |bs|
    ensures forall j :: 0 <= j < |bs| ==> r[j] == RecordOf(bs[j], valid)
  {
    seq(|bs|, j requires 0 <= j < |bs| => RecordOf(bs[j], valid))
  }

  /** What the parser produces for a listing. */
  function Parsed(lines: seq<string>, valid: string -> bool): seq<Adapter>
    requires WellFormedListing(lines)
  {
    BlocksWellFormed(lines);
    Records(Blocks(lines), valid)
  }

  /** One record per header line, in the order of the header lines, named
      after its header; every record has the parsed shape. */
  lemma ParsedRecords(lines: seq<string>, valid: string -> bool)
    requires WellFormedListing(lines)
    ensures |Parsed(lines, valid)| == |Heads(lines, IsHeader)|
    ensures forall j :: 0 <= j < |Parsed(lines, valid)| ==>
      Parsed(lines, valid)[j].name == ResolveName(RawName(Heads(lines, IsHeader)[j]), valid)
    ensures forall j :: 0 <= j < |Parsed(lines, valid)| ==> ParsedShape(Parsed(lines, valid)[j])
  {
    BlocksWellFormed(lines);
    GroupsFacts(lines, IsHeader, LineParses);
    var bs := Blocks(lines);
    forall j | 0 <= j < |bs|
      ensures ParsedShape(Parsed(lines, valid)[j])
    {
      RecordOfShape(bs[j], valid);
    }
  }

  // ---------------------------------------------------------------------------
  // The state machine

  /** `adapters` once `current` is flushed into it (`if current: append`). */
  function Flushed(adapters: seq<Adapter>, current: Option<Adapter>): seq<Adapter> {
    if current.Some? then adapters + [current.value] else adapters
  }

  /** A header line appends a fresh record: the resolved name, no addresses,
      Gateway, RX and TX "N/A". */
  lemma HeaderStep(lines: seq<string>, l: string, valid: string -> bool)
    requires AllWellFormed(Blocks(lines)) && IsHeader(l)
    ensures AllWellFormed(Blocks(lines + [l]))
    ensures Records(Blocks(lines + [l]), valid) ==
      Records(Blocks(lines), valid) + [Adapter(ResolveName(RawName(l), valid), "", "", "N/A", "N/A", "N/A")]
  {
    GroupsSnoc(lines, IsHeader, l);
    var bs := Blocks(lines);
    var bs' := Blocks(lines + [l]);
    assert bs' == bs + [Group(l, [])];
    assert forall j :: 0 <= j < |bs| ==> bs'[j] == bs[j];
  }

  /** The change a line other than a header makes to the record being built:
      a global-scope inet line sets IPv4 and Gateway, else a `link/` line
      with a MAC match sets MAC. */
  function ReadLine(c: Adapter, l: string): Adapter
    requires LineParses(l) && !IsHeader(l)
  {
    if IsAddressLine(l) then c.(ipv4 := InetAddress(l).value, gateway := InetAddress(l).value)
    else if IsLinkLine(l) && MacAddress(l).Some? then c.(mac := MacAddress(l).value)
    else c
  }

  /** A block's record after one more body line is the record before it
      changed by that line. */
  lemma RecordOfSnoc(h: string, body: seq<string>, l: string, valid: string -> bool)
    requires WellFormedBlock(Group(h, body)) && !IsHeader(l) && LineParses(l)
    ensures WellFormedBlock(Group(h, body + [l]))
    ensures RecordOf(Group(h, body + [l]), valid) == ReadLine(RecordOf(Group(h, body), valid), l)
  {
    var body' := body + [l];
    assert body'[..|body|] == body;
    assert forall k :: 0 <= k < |body| ==> body'[k] == body[k];
  }

  /** Any other line changes the last record exactly as the script's `elif`
      branches change `current`, and changes nothing before the first
      header. */
  lemma ReadStep(lines: seq<string>, l: string, valid: string -> bool)
    requires AllWellFormed(Blocks(lines)) && !IsHeader(l) && LineParses(l)
    ensures AllWellFormed(Blocks(lines + [l]))
    ensures Blocks(lines) == [] ==> Blocks(lines + [l]) == []
    ensures Blocks(lines) != [] ==>
      var rs := Records(Blocks(lines), valid);
      Records(Blocks(lines + [l]), valid) == rs[..|rs| - 1] + [ReadLine(rs[|rs| - 1], l)]
  {
    GroupsSnoc(lines, IsHeader, l);
    var bs := Blocks(lines);
    if bs != [] {
      var bs' := Blocks(lines + [l]);
      var last := bs[|bs| - 1];
      assert bs' == Extend(bs, l);
      RecordOfSnoc(last.head, last.body, l, valid);
      ExtendKeeps(bs, l, WellFormedBlock);
      var rs := Records(bs, valid);
      var rs' := Records(bs', valid);
      forall j | 0 <= j < |bs| - 1
        ensures rs'[j] == rs[j]
      {
        assert bs'[j] == bs'[..|bs| - 1][j] == bs[j];
      }
      ReplaceLast(rs, rs', ReadLine(rs[|rs| - 1], l));
    }
  }

  /** The loop invariant of the parser after the lines `xs`: flushing
      `current` into `adapters` gives the records of the blocks so far, and
      `current` is empty until the first header. */
  predicate Inv(xs: seq<string>, adapters: seq<Adapter>, current: Option<Adapter>, valid: string -> bool) {
    && AllWellFormed(Blocks(xs))
    && (current.None? <==> Blocks(xs) == [])
    && Flushed(adapters, current) == Records(Blocks(xs), valid)
  }

  /** The record a header line starts. */
  function Fresh(l: string, valid: string -> bool): Adapter
    requires IsHeader(l)
  {
    Adapter(ResolveName(RawName(l), valid), "", "", "N/A", "N/A", "N/A")
  }

  lemma InvHeader(xs: seq<string>, l: string, adapters: seq<Adapter>, current: Option<Adapter>, valid: string -> bool)
    requires Inv(xs, adapters, current, valid) && IsHeader(l)
    ensures Inv(xs + [l], Flushed(adapters, current), Some(Fresh(l, valid)), valid)
  {
    HeaderStep(xs, l, valid);
    GroupsSnoc(xs, IsHeader, l);
  }

  lemma InvRead(xs: seq<string>, l: string, adapters: seq<Adapter>, current: Option<Adapter>, valid: string -> bool)
    requires Inv(xs, adapters, current, valid) && !IsHeader(l) && LineParses(l)
    ensures current.None? ==> Inv(xs + [l], adapters, None, valid)
    ensures current.Some? ==> Inv(xs + [l], adapters, Some(ReadLine(current.value, l)), valid)
  {
    ReadStep(xs, l, valid);
    if current.Some? {
      assert (adapters + [current.value])[..|adapters|] == adapters;
    }
  }

  /** The state after one pass of the parse loop: a header flushes
      `current` and starts a fresh record; any other line changes `current`,
      if there is one, as `ReadLine` says. */
  function Next(line: string, adapters: seq<Adapter>, current: Option<Adapter>, valid: string -> bool): (seq<Adapter>, Option<Adapter>)
    requires LineParses(line)
  {
    if IsHeader(line) then (Flushed(adapters, current), Some(Fresh(line, valid)))
    else (adapters, if current.Some? then Some(ReadLine(current.value, line)) else None)
  }

  /** One pass keeps the loop invariant, and a line that changes a record
      comes after a header. */
  lemma InvNext(lines: seq<string>, i: nat, adapters: seq<Adapter>, current: Option<Adapter>, valid: string -> bool)
    requires WellFormedListing(lines) && i < |lines|
    requires Inv(lines[..i], adapters, current, valid)
    ensures LineParses(lines[i])
    ensures Updates(lines[i]) ==> current.Some?
    ensures Inv(lines[..i + 1], Next(lines[i], adapters, current, valid).0, Next(lines[i], adapters, current, valid).1, valid)
  {
    var line := lines[i];
    assert lines[..i + 1] == lines[..i] + [line];
    assert LineParses(line);
    if Updates(line) {
      var j :| 0 <= j < i && IsHeader(lines[j]);
      HeaderOpensBlock(lines[..i], j);
    }
    if IsHeader(line) {
      InvHeader(lines[..i], line, adapters, current, valid);
    } else {
      InvRead(lines[..i], line, adapters, current, valid);
    }
  }

  /** One pass of the parse loop: a header flushes `current` and starts a
      fresh record, a global-scope inet line sets IPv4 and Gateway, a `link/`
      line with a MAC match sets MAC. */
  method ReadOne(line: string, adapters: seq<Adapter>, current: Option<Adapter>, valid: string -> bool)
    returns (adapters': seq<Adapter>, current': Option<Adapter>)
    requires LineParses(line)
    requires Updates(line) ==> current.Some?
    ensures (adapters', current') == Next(line, adapters, current, valid)
  {
    adapters', current' := adapters, current;
    if IsHeader(line) {
      if current.Some? {
        adapters' := adapters + [current.value];
      }
      current' := Some(Adapter(ResolveName(RawName(line), valid), "", "", "N/A", "N/A", "N/A"));
    } else if IsAddressLine(line) {
      var ip := InetAddress(line).value;
      current' := Some(current.value.(ipv4 := ip, gateway := ip));
    } else if IsLinkLine(line) {
      var mac := MacAddress(line);
      if mac.Some? {
        current' := Some(current.value.(mac := mac.value));
      }
    }
  }

  /** The parse loop of the script over `output.splitlines()`. `current` is
      `None` while the script's `current` dict is still empty. */
  method ParseListing(output: string, valid: string -> bool) returns (adapters: seq<Adapter>)
    requires WellFormedListing(SplitLines(output))
    ensures adapters == Parsed(SplitLines(output), valid)
  {
    var lines := SplitLines(output);
    adapters := [];
    var current: Option<Adapter> := None;
    for i := 0 to |lines|
      invariant Inv(lines[..i], adapters, current, valid)
    {
      InvNext(lines, i, adapters, current, valid);
      adapters, current := ReadOne(lines[i], adapters, current, valid);
    }
    assert lines[..|lines|] == lines;
    adapters := Flushed(adapters, current);
  }
}
