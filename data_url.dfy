/** `dataURLtoBlob`, which the background worker and the API service of the
    extension define with the same text: the MIME type comes from the part
    before the first comma, the base64 payload is the part between the first
    and the second comma, and the decoded characters are copied into a byte
    array by a count-down loop. `atob` is a parameter. */
module DataUrl {
  import opened Wrappers
  import opened Types

  const DefaultMime: string := "image/jpeg"

  /** The index of the first `c` in `s`, or `|s|` when there is none. */
  function Find(s: string, c: char): (k: nat)
    ensures k <= |s|
    ensures forall i :: 0 <= i < k ==> s[i] != c
    ensures k < |s| ==> s[k] == c
  {
    if s == [] || s[0] == c then 0 else 1 + Find(s[1..], c)
  }

  /** `dataURL.split(',')[0]`. */
  function Header(url: string): (h: string)
    ensures |h| <= |url| && h == url[..|h|]
    ensures forall i :: 0 <= i < |h| ==> h[i] != ','
    ensures |h| < |url| ==> url[|h|] == ','
  {
    url[..Find(url, ',')]
  }

  /** `dataURL.split(',')[1]`: the text between the first and the second
      comma (or the end); `undefined` when there is no comma. */
  function Payload(url: string): (p: Option<string>)
    ensures p.None? <==> forall i :: 0 <= i < |url| ==> url[i] != ','
    ensures p.Some? ==> forall i :: 0 <= i < |p.value| ==> p.value[i] != ','
    ensures p.Some? ==> |Header(url)| + 1 + |p.value| <= |url|
    ensures p.Some? ==> url[|Header(url)| + 1..|Header(url)| + 1 + |p.value|] == p.value
    ensures p.Some? && |Header(url)| + 1 + |p.value| < |url| ==> url[|Header(url)| + 1 + |p.value|] == ','
  {
    var k := Find(url, ',');
    if k == |url| then None
    else
      var rest := url[k + 1..];
      var p := rest[..Find(rest, ',')];
      assert url[k + 1..k + 1 + |p|] == p;
      Some(p)
  }

  /** The string `atob` receives: `parts[1]`, and "undefined" when it is undefined. */
  function AtobArgument(url: string): string {
    match Payload(url)
    case Some(p) => p
    case None => "undefined"
  }

  /** The characters `.` does not match in a JavaScript regular expression. */
  predicate IsLineTerminator(c: char) {
    c == '\n' || c == '\r' || c as int == 0x2028 || c as int == 0x2029
  }

  /** What the lazy `(.*?);` takes at the start of `s`: the shortest prefix
      free of line terminators that is followed by a `;`. */
  function LazyUpToSemicolon(s: string): (m: Option<string>)
    ensures m.Some? ==> |m.value| < |s| && s[..|m.value|] == m.value && s[|m.value|] == ';'
    ensures m.Some? ==> forall i :: 0 <= i < |m.value| ==> m.value[i] != ';' && !IsLineTerminator(m.value[i])
  {
    if s == [] then None
    else if s[0] == ';' then Some("")
    else if IsLineTerminator(s[0]) then None
    else
      match LazyUpToSemicolon(s[1..])
      case None => None
      case Some(m) => Some([s[0]] + m)
  }

  /** Capture group 1 of the leftmost match of `/:(.*?);/` in `s`. */
  function MimeCapture(s: string): (m: Option<string>)
    ensures m.Some? ==> forall i :: 0 <= i < |m.value| ==> m.value[i] != ';' && !IsLineTerminator(m.value[i])
    ensures m.Some? ==> exists k :: 0 <= k < |s| && s[k] == ':' && LazyUpToSemicolon(s[k + 1..]) == m
  {
    if s == [] then None
    else if s[0] == ':' && LazyUpToSemicolon(s[1..]).Some? then LazyUpToSemicolon(s[1..])
    else MimeCapture(s[1..])
  }

  /** `parts[0].match(/:(.*?);/)?.[1] || 'image/jpeg'`: never empty. */
  function MimeType(header: string): (mime: string)
    ensures mime != ""
    ensures MimeCapture(header).Some? && MimeCapture(header).value != "" ==> mime == MimeCapture(header).value
    ensures MimeCapture(header).None? || MimeCapture(header).value == "" ==> mime == DefaultMime
  {
    match MimeCapture(header)
    case Some(m) => if m == "" then DefaultMime else m
    case None => DefaultMime
  }

  /** A `Uint8Array` element assignment keeps the char code modulo 256. */
  function ToUint8(c: char): Byte {
    (c as int) % 256
  }

  /** The bytes a decoded string fills the array with: one per character,
      each the character's code when that code fits in a byte. */
  function CharCodes(s: string): (bytes: seq<Byte>)
    ensures |bytes| == |s|
    ensures forall i :: 0 <= i < |s| && s[i] as int < 256 ==> bytes[i] == s[i] as int
  {
    seq(|s|, i requires 0 <= i < |s| => ToUint8(s[i]))
  }

  /** The characters a `Blob`'s `type` may hold: U+0020 to U+007E. */
  predicate IsPrintableAscii(c: char) {
    0x20 <= c as int <= 0x7E
  }

  function AsciiLower(c: char): char {
    if 'A' <= c <= 'Z' then (c as int + 32) as char else c
  }

  /** The `type` the `Blob` constructor keeps from its `type` option: the
      empty string when the option holds a character outside U+0020 to
      U+007E, otherwise the option in ASCII lower case. */
  function BlobType(t: string): (r: string)
    ensures (forall k :: 0 <= k < |t| ==> IsPrintableAscii(t[k])) ==>
      |r| == |t| && forall k :: 0 <= k < |t| ==> r[k] == AsciiLower(t[k])
    ensures (exists k :: 0 <= k < |t| && !IsPrintableAscii(t[k])) ==> r == ""
    ensures forall k :: 0 <= k < |r| ==> IsPrintableAscii(r[k]) && !('A' <= r[k] <= 'Z')
  {
    if forall k :: 0 <= k < |t| ==> IsPrintableAscii(t[k]) then
      seq(|t|, k requires 0 <= k < |t| => AsciiLower(t[k]))
    else ""
  }

  /** A `Blob`: its bytes and the `type` it keeps. */
  datatype Blob = Blob(data: array<Byte>, mimeType: string)

  /** `let n = bstr.length; const u8arr = new Uint8Array(n); while (n--) u8arr[n] = bstr.charCodeAt(n)`.
      `visited` records the indices written, in order: each index once,
      from the last down to 0. */
  method FillBytes(bstr: string) returns (u8arr: array<Byte>, ghost visited: seq<nat>)
    ensures u8arr.Length == |bstr|
    ensures forall i :: 0 <= i < |bstr| ==> u8arr[i] == ToUint8(bstr[i])
    ensures u8arr[..] == CharCodes(bstr)
    ensures |visited| == |bstr|
    ensures forall k :: 0 <= k < |visited| ==> visited[k] == |bstr| - 1 - k
  {
    var n := |bstr|;
    u8arr := new Byte[n];
    visited := [];
    while n != 0
      invariant 0 <= n <= |bstr| == u8arr.Length
      invariant forall i :: n <= i < |bstr| ==> u8arr[i] == ToUint8(bstr[i])
      invariant |visited| == |bstr| - n
      invariant forall k :: 0 <= k < |visited| ==> visited[k] == |bstr| - 1 - k
      decreases n
    {
      n := n - 1;
      u8arr[n] := ToUint8(bstr[n]);
      visited := visited + [n];
    }
    assert u8arr[..] == CharCodes(bstr);
  }

  /** `dataURLtoBlob(dataURL)`: throws what `atob` throws; otherwise the
      blob holds the decoded payload's char codes, and its `type` is the
      header's MIME type as the `Blob` constructor normalises it. */
  method DataUrlToBlob(url: string, atob: string -> Result<string, string>) returns (blob: Result<Blob, string>)
    ensures blob.Failure? <==> atob(AtobArgument(url)).Failure?
    ensures blob.Failure? ==> blob.error == atob(AtobArgument(url)).error
    ensures blob.Success? ==> blob.value.mimeType == BlobType(MimeType(Header(url)))
    ensures blob.Success? ==> blob.value.data[..] == CharCodes(atob(AtobArgument(url)).value)
  {
    var mime := MimeType(Header(url));
    var decoded := atob(AtobArgument(url));
    if decoded.Failure? {
      return Failure(decoded.error);
    }
    var u8arr, _ := FillBytes(decoded.value);
    blob := Success(Blob(u8arr, BlobType(mime)));
  }

  /** Normalising twice changes nothing, and the default type is already
      normal. */
  lemma BlobTypeIdempotent(t: string)
    ensures BlobType(BlobType(t)) == BlobType(t)
    ensures BlobType(DefaultMime) == DefaultMime
  {
    var r := BlobType(t);
    assert forall k :: 0 <= k < |r| ==> AsciiLower(r[k]) == r[k];
    assert BlobType(r) == r;
    var d := DefaultMime;
    assert forall k :: 0 <= k < |d| ==> IsPrintableAscii(d[k]) && AsciiLower(d[k]) == d[k];
  }

  /** The header of `data:<m>;<params>,<payload>` is `data:<m>;<params>`. */
  lemma DataUrlHeader(h: string, payload: string)
    requires CommaFree(h)
    ensures Header(h + "," + payload) == h
  {
    assert h + "," + payload == h + [','] + payload;
    FindAfterFree(h, ',', payload);
    assert (h + [','] + payload)[..|h|] == h;
  }

  lemma DataHeaderCapture(m: string, params: string)
    requires forall i :: 0 <= i < |m| ==> m[i] != ':' && m[i] != ';'
    ensures FirstColonCapture("data:" + m + ";" + params) == Some(m)
  {
    var tail := m + ";" + params;
    var h := "data:" + m + ";" + params;
    assert h == "data" + [':'] + tail;
    FindAfterFree("data", ':', tail);
    assert h[5..] == tail;
    assert tail == m + [';'] + params;
    FindAfterFree(m, ';', params);
    assert tail[..|m|] == m;
  }

  /** The MIME type of the header `data:<m>;<params>` is `m`. */
  lemma DataHeaderMime(m: string, params: string)
    requires m != [] && NoLineTerminator(m) && NoLineTerminator(params)
    requires forall i :: 0 <= i < |m| ==> m[i] != ':' && m[i] != ';'
    ensures MimeType("data:" + m + ";" + params) == m
  {
    var h := "data:" + m + ";" + params;
    assert NoLineTerminator(h) by {
      forall i | 0 <= i < |h|
        ensures !IsLineTerminator(h[i])
      {
        if 5 <= i < 5 + |m| { assert h[i] == m[i - 5]; }
        else if i >= 5 + |m| + 1 { assert h[i] == params[i - 5 - |m| - 1]; }
      }
    }
    MimeTypeFirstColon(h);
    DataHeaderCapture(m, params);
  }

  /** For `data:<m>;<params>,<payload>` the MIME type is `m`. */
  lemma DataUrlMime(m: string, params: string, payload: string)
    requires m != [] && NoLineTerminator(m) && NoLineTerminator(params)
    requires forall i :: 0 <= i < |m| ==> m[i] != ':' && m[i] != ';' && m[i] != ','
    requires CommaFree(params)
    ensures MimeType(Header("data:" + m + ";" + params + "," + payload)) == m
  {
    var h := "data:" + m + ";" + params;
    assert CommaFree(h) by {
      forall i | 0 <= i < |h|
        ensures h[i] != ','
      {
        if 5 <= i < 5 + |m| { assert h[i] == m[i - 5]; }
        else if i >= 5 + |m| + 1 { assert h[i] == params[i - 5 - |m| - 1]; }
      }
    }
    DataUrlHeader(h, payload);
    DataHeaderMime(m, params);
  }

  // ---------------------------------------------------------------------------
  // The MIME rule, stated by position

  predicate NoLineTerminator(s: string) {
    forall i :: 0 <= i < |s| ==> !IsLineTerminator(s[i])
  }

  /** The text between the first `:` and the next `;` after it, if both exist. */
  function FirstColonCapture(h: string): Option<string> {
    var i := Find(h, ':');
    if i == |h| then None
    else
      var after := h[i + 1..];
      var j := Find(after, ';');
      if j == |after| then None else Some(after[..j])
  }

  lemma {:induction false} LazyWithoutTerminators(s: string)
    requires NoLineTerminator(s)
    ensures LazyUpToSemicolon(s) == if Find(s, ';') < |s| then Some(s[..Find(s, ';')]) else None
    decreases |s|
  {
    if s != [] && s[0] != ';' {
      LazyWithoutTerminators(s[1..]);
      assert Find(s, ';') == 1 + Find(s[1..], ';');
      assert s[..Find(s, ';')] == [s[0]] + s[1..][..Find(s[1..], ';')];
    }
  }

  lemma {:induction false} NoSemicolonNoCapture(s: string)
    requires forall i :: 0 <= i < |s| ==> s[i] != ';'
    ensures MimeCapture(s) == None
    decreases |s|
  {
    if s != [] {
      if s[0] == ':' {
        NoLazyMatchWithoutSemicolon(s[1..]);
      }
      NoSemicolonNoCapture(s[1..]);
    }
  }

  lemma {:induction false} NoLazyMatchWithoutSemicolon(s: string)
    requires forall i :: 0 <= i < |s| ==> s[i] != ';'
    ensures LazyUpToSemicolon(s) == None
    decreases |s|
  {
    if s != [] {
      NoLazyMatchWithoutSemicolon(s[1..]);
    }
  }

  /** On a header without line breaks, the MIME type is the text between
      the first `:` and the next `;`, and `image/jpeg` when either is
      missing or that text is empty. */
  lemma {:induction false} MimeTypeFirstColon(h: string)
    requires NoLineTerminator(h)
    ensures MimeCapture(h) == FirstColonCapture(h)
    ensures MimeType(h) == if FirstColonCapture(h).Some? && FirstColonCapture(h).value != "" then FirstColonCapture(h).value else DefaultMime
    decreases |h|
  {
    if h != [] {
      if h[0] == ':' {
        LazyWithoutTerminators(h[1..]);
        if Find(h[1..], ';') == |h[1..]| {
          NoSemicolonNoCapture(h[1..]);
        }
      } else {
        MimeTypeFirstColon(h[1..]);
        assert Find(h, ':') == 1 + Find(h[1..], ':');
        if Find(h[1..], ':') < |h[1..]| {
          assert h[Find(h, ':') + 1..] == h[1..][Find(h[1..], ':') + 1..];
        }
      }
    }
  }

  // ---------------------------------------------------------------------------
  // The comma split

  lemma {:induction false} FindAfterFree(a: string, c: char, rest: string)
    requires forall i :: 0 <= i < |a| ==> a[i] != c
    ensures Find(a + [c] + rest, c) == |a|
    decreases |a|
  {
    if a != [] {
      assert (a + [c] + rest)[1..] == a[1..] + [c] + rest;
      FindAfterFree(a[1..], c, rest);
    }
  }

  lemma {:induction false} FindAbsent(a: string, c: char)
    requires forall i :: 0 <= i < |a| ==> a[i] != c
    ensures Find(a, c) == |a|
    decreases |a|
  {
    if a != [] {
      FindAbsent(a[1..], c);
    }
  }

  predicate CommaFree(s: string) {
    forall i :: 0 <= i < |s| ==> s[i] != ','
  }

  /** Without a comma the whole URL is the header and `parts[1]` is
      undefined; with one, the header is what precedes it and the payload
      is what follows, up to a second comma, after which the rest is
      dropped. */
  lemma PayloadIsSecondSegment(a: string, b: string, rest: string)
    requires CommaFree(a) && CommaFree(b)
    ensures Header(a) == a && Payload(a) == None
    ensures Header(a + "," + b) == a && Payload(a + "," + b) == Some(b)
    ensures Header(a + "," + b + "," + rest) == a && Payload(a + "," + b + "," + rest) == Some(b)
  {
    FindAbsent(a, ',');
    FindAbsent(b, ',');
    assert a[..|a|] == a && b[..|b|] == b;

    var two := a + "," + b;
    assert two == a + [','] + b;
    FindAfterFree(a, ',', b);
    assert two[..|a|] == a && two[|a| + 1..] == b;

    var tail := b + [','] + rest;
    var three := a + "," + b + "," + rest;
    assert three == a + [','] + tail;
    FindAfterFree(a, ',', tail);
    FindAfterFree(b, ',', rest);
    assert three[..|a|] == a && three[|a| + 1..] == tail;
    assert tail[..|b|] == b;
  }
}
