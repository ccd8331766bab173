/** Filling in the RX and TX columns from the output of `ifconfig`: for every
    adapter, the regex `^NAME.*?(RX packets.*?TX packets.*?)\n\n` (with
    DOTALL and MULTILINE) picks the statistics block of the first line that
    starts with the adapter name, and the byte counts after "RX packets" and
    "TX packets" in that block are shown with `human_readable`. */
module InterfaceStats {
  import opened Text
  import opened ByteUnits
  import opened Addresses

  /** What the script gets from `ifconfig`: the command is not on the path,
      running it raised an exception, or its output. */
  datatype StatsSource = Missing | Failed | Output(text: string)

  // ---------------------------------------------------------------------------
  // The adapter name inside the pattern

  /** Characters with a meaning in a regex outside a class, other than '.'. */
  predicate IsRegexSpecial(c: char) {
    c == '^' || c == '$' || c == '*' || c == '+' || c == '?' || c == '{' || c == '}' ||
    c == '[' || c == ']' || c == '\\' || c == '|' || c == '(' || c == ')'
  }

  /** A name the script can put into its pattern unchanged: every character
      stands for itself, except '.', which stands for any character. */
  predicate PatternSafe(name: string) {
    forall k :: 0 <= k < |name| ==> !IsRegexSpecial(name[k])
  }

  /** The name, read as a pattern, matches the text at `p`. */
  predicate NameAt(text: string, name: string, p: nat) {
    p + |name| <= |text| && forall k :: 0 <= k < |name| ==> name[k] == '.' || text[p + k] == name[k]
  }

  /** `^` with MULTILINE: the start of the text or just after a newline. */
  predicate LineStart(text: string, p: nat) {
    p <= |text| && (p == 0 || text[p - 1] == '\n')
  }

  // ---------------------------------------------------------------------------
  // Locating an adapter's block

  /** What `(RX packets.*?TX packets.*?)\n\n` captures when it has to start at
      or after `from`: from the first "RX packets" to the first blank line
      after the first "TX packets" after it. Each lazy `.*?` stops at the
      first place the rest can match, and if the rest fails there it fails
      further on too. */
  function Capture(text: string, from: nat): Option<string>
  {
    match FindFrom(text, "RX packets", from)
    case None => None
    case Some(q) =>
      match FindFrom(text, "TX packets", q + 10)
      case None => None
      case Some(t) =>
        match FindFrom(text, "\n\n", t + 10)
        case None => None
        case Some(e) => Some(text[q..e])
  }

  /** A capture that exists from a later position exists from an earlier one:
      the searches from the earlier position find occurrences no later. */
  lemma CaptureEarlier(text: string, a: nat, b: nat)
    requires a <= b && Capture(text, b).Some?
    ensures Capture(text, a).Some?
  {
    var qb := FindFrom(text, "RX packets", b).value;
    var tb := FindFrom(text, "TX packets", qb + 10).value;
    var qa := FindFrom(text, "RX packets", a).value;
    assert qa <= qb;
    var ta := FindFrom(text, "TX packets", qa + 10).value;
    assert ta <= tb;
    assert FindFrom(text, "\n\n", ta + 10).Some?;
  }

  /** A line start at which the name matches, the search's candidates. */
  predicate Candidate(text: string, name: string, p: nat) {
    LineStart(text, p) && NameAt(text, name, p)
  }

  /** The whole pattern matches with the name at `p`. */
  predicate MatchAt(text: string, name: string, p: nat) {
    Candidate(text, name, p) && Capture(text, p + |name|).Some?
  }

  /** The first line start at which the name matches. */
  function FirstCandidate(text: string, name: string): (r: Option<nat>)
    ensures r.Some? ==> Candidate(text, name, r.value)
    ensures forall p: nat :: (r.None? || p < r.value) ==> !Candidate(text, name, p)
  {
    var cand := (p: nat) => Candidate(text, name, p);
    var r := FirstWhere(|text| + 1, 0, cand);
    forall p: nat | r.None? || p < r.value
      ensures !Candidate(text, name, p)
    {
      if p <= |text| {
        assert !cand(p);
      }
    }
    r
  }

  /** The statistics block the script finds for `name`: the capture after the
      first line that starts with the name, `None` when there is no such line
      or no complete block after it. */
  function Locate(text: string, name: string): Option<string>
  {
    var first := FirstCandidate(text, name);
    if first.None? then None else Capture(text, first.value + |name|)
  }

  /** `Locate` is what `pattern.search` returns: a block exactly when the
      pattern matches somewhere, and then the capture of the leftmost match. */
  lemma LocateIsSearch(text: string, name: string)
    ensures Locate(text, name).Some? <==> exists p: nat :: MatchAt(text, name, p)
    ensures Locate(text, name).Some? ==> exists p: nat ::
      && MatchAt(text, name, p) && (forall p': nat :: p' < p ==> !MatchAt(text, name, p'))
      && Locate(text, name) == Capture(text, p + |name|)
  {
    if Locate(text, name).Some? {
      LocateFound(text, name);
    } else {
      LocateNotFound(text, name);
    }
  }

  lemma LocateFound(text: string, name: string)
    requires Locate(text, name).Some?
    ensures exists p: nat ::
      && MatchAt(text, name, p) && (forall p': nat :: p' < p ==> !MatchAt(text, name, p'))
      && Locate(text, name) == Capture(text, p + |name|)
  {
    var p := FirstCandidate(text, name).value;
    assert MatchAt(text, name, p);
    assert forall p': nat :: p' < p ==> !MatchAt(text, name, p');
  }

  lemma LocateNotFound(text: string, name: string)
    requires Locate(text, name).None?
    ensures forall p: nat :: !MatchAt(text, name, p)
  {
    var first := FirstCandidate(text, name);
    if first.Some? {
      var p := first.value;
      forall p': nat ensures !MatchAt(text, name, p') {
        if p' >= p && MatchAt(text, name, p') {
          CaptureEarlier(text, p + |name|, p' + |name|);
        }
      }
    }
  }

  /** The pattern anchors only the start of the name: an adapter whose name
      begins another adapter's name gets that adapter's block when that
      adapter's header line comes first. */
  lemma PrefixNameSharesBlock(text: string, name: string, longer: string, p: nat)
    requires |name| <= |longer| && longer[..|name|] == name
    requires Candidate(text, longer, p)
    requires forall p': nat :: p' < p ==> !Candidate(text, name, p')
    ensures Candidate(text, name, p)
    ensures Locate(text, name) == Capture(text, p + |name|)
  {
    assert forall k :: 0 <= k < |name| ==> name[k] == longer[k];
    assert Candidate(text, name, p);
    assert FirstCandidate(text, name) == Some(p);
  }

  // ---------------------------------------------------------------------------
  // The byte counts in a block

  /** The digits `tag \d+\s+bytes\s+(\d+)` captures at `r`, if it matches
      there. `\d+` and `\s+` can only match their longest runs, since the
      next item of the pattern cannot start inside them. */
  function CountAt(stats: string, tag: string, r: nat): Option<string>
  {
    if !OccursAt(stats, tag, r) then None
    else
      var a := r + |tag|;
      var d1 := RunLength(stats, a, IsDigit);
      var s1 := RunLength(stats, a + d1, IsSpace);
      var b := a + d1 + s1;
      if d1 == 0 || s1 == 0 || !OccursAt(stats, "bytes", b) then None
      else
        var s2 := RunLength(stats, b + 5, IsSpace);
        var d2 := RunLength(stats, b + 5 + s2, IsDigit);
        if s2 == 0 || d2 == 0 then None
        else Some(stats[b + 5 + s2..b + 5 + s2 + d2])
  }

  /** `re.search(tag + r'\d+\s+bytes\s+(\d+)', stats).group(1)`: the count
      at the leftmost position where the pattern matches. */
  function Count(stats: string, tag: string): (r: Option<string>)
    ensures r.Some? ==> r.value != [] && AllDigits(r.value)
  {
    match FirstWhere(|stats|, 0, (r: nat) => CountAt(stats, tag, r).Some?)
    case None => None
    case Some(r) => CountAt(stats, tag, r)
  }

  lemma CountIsLeftmost(stats: string, tag: string)
    ensures Count(stats, tag).None? <==> forall r: nat :: CountAt(stats, tag, r).None?
    ensures Count(stats, tag).Some? ==> exists r: nat ::
      && Count(stats, tag) == CountAt(stats, tag, r)
      && forall r': nat :: r' < r ==> CountAt(stats, tag, r').None?
  {
    var at := (r: nat) => CountAt(stats, tag, r).Some?;
    var first := FirstWhere(|stats|, 0, at);
    if first.None? {
      forall r: nat ensures CountAt(stats, tag, r).None? {
        if r < |stats| {
          assert !at(r);
        }
      }
    } else {
      var r := first.value;
      forall r': nat | r' < r ensures CountAt(stats, tag, r').None? {
        assert !at(r');
      }
    }
  }

  // ---------------------------------------------------------------------------
  // Enrichment

  /** The adapter after the script's pass over it: RX and TX become the
      human-readable counts of its block, each only when found. */
  function EnrichOne(a: Adapter, text: string): Adapter
  {
    match Locate(text, a.name)
    case None => a
    case Some(stats) =>
      var rx := Count(stats, "RX packets ");
      var tx := Count(stats, "TX packets ");
      a.(rx := if rx.Some? then HumanReadableOf(rx.value) else a.rx,
         tx := if tx.Some? then HumanReadableOf(tx.value) else a.tx)
  }

  /** Enrichment changes only RX and TX: each becomes the size of the count
      found in the adapter's block, and keeps its value when there is no
      block or no such count. */
  lemma EnrichOneFacts(a: Adapter, text: string)
    ensures var e := EnrichOne(a, text);
      && e.name == a.name && e.ipv4 == a.ipv4 && e.mac == a.mac && e.gateway == a.gateway
      && (Locate(text, a.name).None? ==> e == a)
      && (Locate(text, a.name).Some? && Count(Locate(text, a.name).value, "RX packets ").Some? ==>
            e.rx == FormatBytes(DigitsValue(Count(Locate(text, a.name).value, "RX packets ").value)))
      && (Locate(text, a.name).Some? && Count(Locate(text, a.name).value, "TX packets ").Some? ==>
            e.tx == FormatBytes(DigitsValue(Count(Locate(text, a.name).value, "TX packets ").value)))
      && (Locate(text, a.name).Some? && Count(Locate(text, a.name).value, "RX packets ").None? ==> e.rx == a.rx)
      && (Locate(text, a.name).Some? && Count(Locate(text, a.name).value, "TX packets ").None? ==> e.tx == a.tx)
  {
  }

  /** A shown count is never "N/A". */
  lemma FormatBytesNotNA(b: nat)
    ensures FormatBytes(b) != "N/A"
  {
    var s := FormatBytes(b);
    var t := FormatTenths(Tenths(b));
    assert s[|t|] == ' ';
  }

  /** The script's pass over one adapter. */
  method EnrichAdapter(a: Adapter, text: string) returns (e: Adapter)
    ensures e == EnrichOne(a, text)
  {
    e := a;
    var block := Locate(text, a.name);
    if block.Some? {
      var stats := block.value;
      var rx := Count(stats, "RX packets ");
      var tx := Count(stats, "TX packets ");
      if rx.Some? {
        var shown := HumanReadable(rx.value);
        e := e.(rx := shown);
      }
      if tx.Some? {
        var shown := HumanReadable(tx.value);
        e := e.(tx := shown);
      }
    }
  }

  /** The enrichment loop over the adapter list, each adapter's RX and TX
      updated in place. */
  method Enrich(adapters: seq<Adapter>, text: string) returns (result: seq<Adapter>)
    ensures |result| == |adapters|
    ensures forall j :: 0 <= j < |adapters| ==> result[j] == EnrichOne(adapters[j], text)
  {
    result := adapters;
    for i := 0 to |adapters|
      invariant |result| == |adapters|
      invariant forall j :: 0 <= j < i ==> result[j] == EnrichOne(adapters[j], text)
      invariant forall j :: i <= j < |adapters| ==> result[j] == adapters[j]
    {
      var e := EnrichAdapter(result[i], text);
      result := result[i := e];
    }
  }
}
