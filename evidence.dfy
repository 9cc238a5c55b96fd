/** The evidence block and the summary slot the handler puts into the
    verdict prompt, built from the search service's reply. */
module Evidence {
  import opened Wrappers
  import opened Digits

  /** One ranked result of the search service. */
  datatype SearchHit = SearchHit(title: string, content: string, url: string)

  /** The search reply: results in the service's order and an optional answer. */
  datatype SearchResponse = SearchResponse(results: seq<SearchHit>, answer: Option<string>)

  const NoSummary: string := "No summary available"

  /** `Array.prototype.join(sep)` over strings. */
  function Join(parts: seq<string>, sep: string): (r: string)
    ensures parts != [] ==> |parts[0]| <= |r| && r[..|parts[0]|] == parts[0]
  {
    if |parts| == 0 then ""
    else if |parts| == 1 then parts[0]
    else parts[0] + sep + Join(parts[1..], sep)
  }

  /** The citation block of the result at 0-based position `idx`: it opens
      with a bracketed label that reads back as the 1-based rank. */
  function Entry(idx: nat, hit: SearchHit): (e: string)
    ensures CitationNumber(e) == Some(idx + 1)
  {
    var d := Decimal(idx + 1);
    var tail := "] " + hit.title + "\n" + hit.content + "\nSource: " + hit.url;
    var e := "[" + d + tail;
    assert e == "[" + (d + tail);
    assert e[1..] == d + tail;
    DecimalRoundTrip(idx + 1);
    DigitRunOfDigits(d, tail);
    assert e[1 + |d|] == tail[0] == ']';
    assert e[1..][..|d|] == d;
    e
  }

  /** `results.map((result, idx) => ...).join('\n\n')`: empty exactly when
      there are no results, and otherwise opening with the first result's
      label. */
  function EvidenceBlock(results: seq<SearchHit>): (block: string)
    ensures block == "" <==> results == []
    ensures results != [] ==> CitationNumber(block) == Some(1)
  {
    var entries := seq(|results|, i requires 0 <= i < |results| => Entry(i, results[i]));
    var block := Join(entries, "\n\n");
    if results == [] then block
    else
      assert entries[0] == Entry(0, results[0]);
      assert block[..|entries[0]|] == entries[0];
      CitationPrefix(entries[0], block);
      block
  }

  /** `answer || 'No summary available'`: the answer when it is a non-empty
      string, the placeholder otherwise; the slot is never empty. */
  function SummarySlot(answer: Option<string>): (slot: string)
    ensures slot != ""
    ensures answer.Some? && answer.value != "" ==> slot == answer.value
    ensures answer.None? || answer.value == "" ==> slot == NoSummary
  {
    if answer.Some? && answer.value != "" then answer.value else NoSummary
  }

  /** Reads the number of a leading "[digits]" citation label. */
  function CitationNumber(s: string): Option<nat> {
    if s != [] && s[0] == '[' then
      var k := DigitRun(s[1..]);
      if 0 < k && 1 + k < |s| && s[1 + k] == ']' then Some(ValueOf(s[1..][..k])) else None
    else None
  }

  // ---------------------------------------------------------------------------

  /** Joining one more part appends the separator and the part. */
  lemma {:induction false} JoinSnoc(parts: seq<string>, last: string, sep: string)
    ensures Join(parts + [last], sep) == if parts == [] then last else Join(parts, sep) + sep + last
    decreases |parts|
  {
    if |parts| >= 2 {
      assert (parts + [last])[1..] == parts[1..] + [last];
      JoinSnoc(parts[1..], last, sep);
    } else if |parts| == 1 {
      assert (parts + [last])[1..] == [last];
    }
  }

  /** The block grows one entry per result, in result order, numbered by
      position: the result at index `|results|` is cited as `|results| + 1`. */
  lemma EvidenceBlockSnoc(results: seq<SearchHit>, hit: SearchHit)
    ensures EvidenceBlock(results + [hit]) ==
            if results == [] then Entry(0, hit) else EvidenceBlock(results) + "\n\n" + Entry(|results|, hit)
  {
    var all := results + [hit];
    var entries := seq(|results|, i requires 0 <= i < |results| => Entry(i, results[i]));
    assert seq(|all|, i requires 0 <= i < |all| => Entry(i, all[i])) == entries + [Entry(|results|, hit)];
    JoinSnoc(entries, Entry(|results|, hit), "\n\n");
  }

  /** A label that is read back is read back from any text that starts
      with it. */
  lemma CitationPrefix(e: string, s: string)
    requires CitationNumber(e).Some? && |e| <= |s| && s[..|e|] == e
    ensures CitationNumber(s) == CitationNumber(e)
  {
    var k := DigitRun(e[1..]);
    assert e[1..][..k + 1] == s[1..][..k + 1];
    DigitRunPrefix(e[1..], s[1..], k);
    assert s[1 + k] == e[1 + k];
    assert e[1..][..k] == s[1..][..k];
  }

  /** The digit run is decided by the characters up to the first non-digit. */
  lemma DigitRunPrefix(a: string, b: string, k: nat)
    requires k < |a| && k < |b| && a[..k + 1] == b[..k + 1] && k == DigitRun(a)
    ensures DigitRun(b) == k
  {
    assert a[..k] == b[..k];
    assert b[k] == a[k];
    DigitRunOfDigits(b[..k], b[k..]);
    assert b == b[..k] + b[k..];
  }
}
