/** The clean-up the `/verify-new` handler applies to each model reply before
    decoding it as JSON: every "```json" (with one optional newline after it)
    is deleted, then every "```" (with one optional newline after it), and
    the result is trimmed of JavaScript whitespace at both ends. */
module ModelText {

  const Fence: string := "```"
  const JsonFence: string := "```json"

  predicate StartsWith(s: string, p: string) {
    |p| <= |s| && s[..|p|] == p
  }

  /** A global regular-expression replacement of `pat\n?` by the empty string:
      the scan goes left to right, a match is taken at the leftmost position
      where `pat` starts, the optional newline is taken when it is there, and
      the scan resumes right after the match (matches never overlap). */
  function StripAll(s: string, pat: string): (r: string)
    requires pat != ""
    ensures |r| <= |s|
    ensures (forall k :: 0 <= k < |s| ==> s[k] != pat[0]) ==> r == s
    decreases |s|
  {
    if s == [] then []
    else if StartsWith(s, pat) then
      var rest := s[|pat|..];
      if rest != [] && rest[0] == '\n' then StripAll(rest[1..], pat) else StripAll(rest, pat)
    else
      var r := [s[0]] + StripAll(s[1..], pat);
      assert (forall k :: 0 <= k < |s| ==> s[k] != pat[0]) ==> r == s by {
        if forall k :: 0 <= k < |s| ==> s[k] != pat[0] {
          assert forall k :: 0 <= k < |s[1..]| ==> s[1..][k] == s[k + 1];
          assert s == [s[0]] + s[1..];
        }
      }
      r
  }

  /** The characters `String.prototype.trim` removes: the ECMAScript
      WhiteSpace and LineTerminator code points. */
  predicate IsJsWhitespace(c: char) {
    var k := c as int;
    k == 0x09 || k == 0x0A || k == 0x0B || k == 0x0C || k == 0x0D || k == 0x20 ||
    k == 0xA0 || k == 0x1680 || (0x2000 <= k <= 0x200A) || k == 0x2028 || k == 0x2029 ||
    k == 0x202F || k == 0x205F || k == 0x3000 || k == 0xFEFF
  }

  predicate AllWhitespace(s: string) {
    forall i :: 0 <= i < |s| ==> IsJsWhitespace(s[i])
  }

  /** Text with no whitespace at either end. */
  predicate IsTrimmed(s: string) {
    s == [] || (!IsJsWhitespace(s[0]) && !IsJsWhitespace(s[|s| - 1]))
  }

  /** The length of the whitespace run that starts `s`. */
  function LeadingSpace(s: string): (k: nat)
    ensures k <= |s| && AllWhitespace(s[..k])
    ensures k < |s| ==> !IsJsWhitespace(s[k])
  {
    if s != [] && IsJsWhitespace(s[0]) then
      var k := 1 + LeadingSpace(s[1..]);
      assert s[..k] == [s[0]] + s[1..][..k - 1];
      k
    else 0
  }

  /** The length of the whitespace run that ends `s`. */
  function TrailingSpace(s: string): (k: nat)
    ensures k <= |s| && AllWhitespace(s[|s| - k..])
    ensures k < |s| ==> !IsJsWhitespace(s[|s| - 1 - k])
  {
    if s != [] && IsJsWhitespace(s[|s| - 1]) then
      var k := 1 + TrailingSpace(s[..|s| - 1]);
      assert s[|s| - k..] == s[..|s| - 1][|s| - k..] + [s[|s| - 1]];
      k
    else 0
  }

  /** `t` without its trailing whitespace run. */
  function DropTrailing(t: string): (r: string)
    ensures |r| <= |t| && r == t[..|r|] && AllWhitespace(t[|r|..])
    ensures r == [] || !IsJsWhitespace(r[|r| - 1])
  {
    t[..|t| - TrailingSpace(t)]
  }

  /** `String.prototype.trim`: what is left is trimmed, and only whitespace
      was cut off, at the two ends. */
  function Trim(s: string): (r: string)
    ensures IsTrimmed(r)
    ensures exists i, j :: 0 <= i <= j <= |s| && r == s[i..j] && AllWhitespace(s[..i]) && AllWhitespace(s[j..])
  {
    var i := LeadingSpace(s);
    var r := DropTrailing(s[i..]);
    assert r == s[i..i + |r|];
    assert s[i + |r|..] == s[i..][|r|..];
    assert r != [] ==> r[0] == s[i];
    r
  }

  /** The expression the handler applies to the reply text: the result
      holds no three consecutive backticks, has no whitespace at either end,
      and is no longer than the text. */
  function Clean(text: string): (r: string)
    ensures NoFence(r) && IsTrimmed(r)
    ensures |r| <= |text|
  {
    var stripped := StripAll(StripAll(text, JsonFence), Fence);
    var r := Trim(stripped);
    StripFenceLeavesNoFence(StripAll(text, JsonFence));
    var i, j :| 0 <= i <= j <= |stripped| && r == stripped[i..j];
    NoFenceInFactor(stripped, i, j);
    r
  }

  // ---------------------------------------------------------------------------
  // No fence survives

  predicate FenceAt(s: string, i: int)
    requires 0 <= i <= |s| - 3
  {
    s[i] == '`' && s[i + 1] == '`' && s[i + 2] == '`'
  }

  /** No three consecutive backticks anywhere in `s`. */
  predicate NoFence(s: string) {
    forall i :: 0 <= i <= |s| - 3 ==> !FenceAt(s, i)
  }

  lemma StartsWithFence(s: string)
    requires |s| >= 3
    ensures StartsWith(s, Fence) <==> FenceAt(s, 0)
  {
    if FenceAt(s, 0) {
      assert s[..3] == [s[0], s[1], s[2]];
    }
  }

  /** A first character that cannot begin the pattern is kept. */
  lemma StripKeepsHead(s: string, pat: string)
    requires pat != "" && s != [] && s[0] != pat[0]
    ensures StripAll(s, pat) == [s[0]] + StripAll(s[1..], pat)
  {
    assert !StartsWith(s, pat) by {
      if |pat| <= |s| { assert s[..|pat|][0] == s[0]; }
    }
  }

  /** After the global "```\n?" replacement no three backticks are left: a
      kept backtick is never followed, in the output, by two more, because
      the scan would have matched there. */
  lemma {:induction false} StripFenceLeavesNoFence(s: string)
    ensures NoFence(StripAll(s, Fence))
    decreases |s|
  {
    if s == [] {
    } else if StartsWith(s, Fence) {
      var rest := s[3..];
      if rest != [] && rest[0] == '\n' { StripFenceLeavesNoFence(rest[1..]); } else { StripFenceLeavesNoFence(rest); }
    } else {
      var tail := StripAll(s[1..], Fence);
      var r := [s[0]] + tail;
      assert StripAll(s, Fence) == r;
      StripFenceLeavesNoFence(s[1..]);
      forall i | 0 <= i <= |r| - 3
        ensures !FenceAt(r, i)
      {
        if i > 0 {
          assert !FenceAt(tail, i - 1);
          assert r[i] == tail[i - 1] && r[i + 1] == tail[i] && r[i + 2] == tail[i + 1];
        } else if s[0] == '`' {
          StartsWithFence(s);
          if s[1] != '`' {
            StripKeepsHead(s[1..], Fence);
          } else {
            assert s[2] != '`';
            if |s[1..]| >= 3 { StartsWithFence(s[1..]); }
            assert !StartsWith(s[1..], Fence);
            assert s[1..][1..] == s[2..];
            assert tail == [s[1]] + StripAll(s[2..], Fence);
            StripKeepsHead(s[2..], Fence);
          }
        }
      }
    }
  }

  lemma NoFenceInFactor(s: string, i: int, j: int)
    requires 0 <= i <= j <= |s| && NoFence(s)
    ensures NoFence(s[i..j])
  {
    forall k | 0 <= k <= j - i - 3
      ensures !FenceAt(s[i..j], k)
    {
      assert !FenceAt(s, i + k);
    }
  }

  // ---------------------------------------------------------------------------
  // Idempotence

  /** Both replacements leave fence-free text alone (each pattern starts
      with three backticks). */
  lemma {:induction false} StripFenceFreeUnchanged(s: string, pat: string)
    requires pat != "" && StartsWith(pat, Fence) && NoFence(s)
    ensures StripAll(s, pat) == s
    decreases |s|
  {
    if s != [] {
      if |s| >= 3 { StartsWithFence(s); }
      assert !StartsWith(s, pat) by {
        if |pat| <= |s| {
          assert s[..|pat|][..3] == s[..3];
          assert pat[..3] == Fence;
        }
      }
      assert NoFence(s[1..]) by {
        forall i | 0 <= i <= |s[1..]| - 3
          ensures !FenceAt(s[1..], i)
        {
          assert !FenceAt(s, i + 1);
        }
      }
      StripFenceFreeUnchanged(s[1..], pat);
      assert s == [s[0]] + s[1..];
    }
  }

  lemma TrimOfTrimmed(s: string)
    requires IsTrimmed(s)
    ensures Trim(s) == s
  {
    if s != [] {
      assert LeadingSpace(s) == 0;
      assert TrailingSpace(s) == 0;
    }
  }

  /** Cleaning twice is cleaning once. */
  lemma CleanIdempotent(text: string)
    ensures Clean(Clean(text)) == Clean(text)
  {
    var c := Clean(text);
    StripFenceFreeUnchanged(c, JsonFence);
    StripFenceFreeUnchanged(c, Fence);
    TrimOfTrimmed(c);
  }

  // ---------------------------------------------------------------------------
  // Text without backticks, and fenced replies

  predicate NoBacktick(s: string) {
    forall i :: 0 <= i < |s| ==> s[i] != '`'
  }

  /** For text without any backtick, cleaning is trimming. */
  lemma CleanWithoutBackticks(text: string)
    requires NoBacktick(text)
    ensures Clean(text) == Trim(text)
  {
    assert NoFence(text) by {
      forall i | 0 <= i <= |text| - 3 ensures !FenceAt(text, i) {
        assert text[i] != '`';
      }
    }
    StripFenceFreeUnchanged(text, JsonFence);
    StripFenceFreeUnchanged(text, Fence);
  }

  /** A backtick-free prefix passes through a replacement untouched. */
  lemma {:induction false} StripKeepsPrefix(x: string, z: string, pat: string)
    requires pat != "" && pat[0] == '`' && NoBacktick(x)
    ensures StripAll(x + z, pat) == x + StripAll(z, pat)
    decreases |x|
  {
    if x != [] {
      StripKeepsHead(x + z, pat);
      assert (x + z)[1..] == x[1..] + z;
      StripKeepsPrefix(x[1..], z, pat);
      assert x == [x[0]] + x[1..];
    } else {
      assert x + z == z;
    }
  }

  /** Text shorter than the pattern is left alone. */
  lemma {:induction false} StripShortUnchanged(s: string, pat: string)
    requires pat != "" && |s| < |pat|
    ensures StripAll(s, pat) == s
    decreases |s|
  {
    if s != [] {
      StripShortUnchanged(s[1..], pat);
      assert s == [s[0]] + s[1..];
    }
  }

  /** An opening marker followed by a newline is deleted together with it. */
  lemma StripOpeningMarker(pat: string, y: string)
    requires pat != ""
    ensures StripAll(pat + "\n" + y, pat) == StripAll(y, pat)
  {
    var s := pat + "\n" + y;
    assert s[..|pat|] == pat;
    assert s[|pat|..] == "\n" + y;
    assert s[|pat|..][1..] == y;
  }

  /** The trailing "\n```" of a fenced reply becomes one newline. */
  lemma StripClosingMarker()
    ensures StripAll("\n" + Fence, JsonFence) == "\n" + Fence
    ensures StripAll("\n" + Fence, Fence) == "\n"
  {
    StripShortUnchanged("\n" + Fence, JsonFence);
    StripKeepsHead("\n" + Fence, Fence);
    assert ("\n" + Fence)[1..] == Fence;
    assert Fence[3..] == [];
  }

  lemma {:induction false} LeadingSpaceOfConcat(x: string, y: string)
    ensures LeadingSpace(x + y) == if LeadingSpace(x) < |x| then LeadingSpace(x) else |x| + LeadingSpace(y)
    decreases |x|
  {
    if x == [] {
      assert x + y == y;
    } else {
      assert (x + y)[0] == x[0];
      assert (x + y)[1..] == x[1..] + y;
      LeadingSpaceOfConcat(x[1..], y);
    }
  }

  lemma DropTrailingSnoc(t: string, c: char)
    requires IsJsWhitespace(c)
    ensures DropTrailing(t + [c]) == DropTrailing(t)
  {
    assert (t + [c])[..|t|] == t;
    assert TrailingSpace(t + [c]) == 1 + TrailingSpace(t);
    assert (t + [c])[..|t| - TrailingSpace(t)] == t[..|t| - TrailingSpace(t)];
  }

  /** A trailing whitespace character does not change the trimmed text. */
  lemma TrimDropsTrailingSpace(x: string, c: char)
    requires IsJsWhitespace(c)
    ensures Trim(x + [c]) == Trim(x)
  {
    LeadingSpaceOfConcat(x, [c]);
    var i := LeadingSpace(x);
    if i < |x| {
      assert (x + [c])[i..] == x[i..] + [c];
      DropTrailingSnoc(x[i..], c);
    } else {
      assert LeadingSpace([c]) == 1;
      assert (x + [c])[|x| + 1..] == [];
      assert x[i..] == [];
    }
  }

  lemma StripNonMatch(s: string, pat: string)
    requires pat != "" && s != [] && !StartsWith(s, pat)
    ensures StripAll(s, pat) == [s[0]] + StripAll(s[1..], pat)
  {
  }

  /** The first replacement passes over a bare "```" opening marker. */
  lemma StripJsonSkipsBareMarker(y: string)
    ensures StripAll(Fence + "\n" + y, JsonFence) == Fence + "\n" + StripAll(y, JsonFence)
  {
    var s := Fence + "\n" + y;
    assert s[0] == '`' && s[1] == '`' && s[2] == '`' && s[3] == '\n';
    assert JsonFence[1] == '`' && JsonFence[2] == '`' && JsonFence[3] == 'j';
    assert !StartsWith(s, JsonFence) by {
      if |JsonFence| <= |s| { assert s[..7][3] == s[3]; }
    }
    assert !StartsWith(s[1..], JsonFence) by {
      if |JsonFence| <= |s[1..]| { assert s[1..][..7][2] == s[3]; }
    }
    assert !StartsWith(s[2..], JsonFence) by {
      if |JsonFence| <= |s[2..]| { assert s[2..][..7][1] == s[3]; }
    }
    StripNonMatch(s, JsonFence);
    StripNonMatch(s[1..], JsonFence);
    assert s[1..][1..] == s[2..];
    StripNonMatch(s[2..], JsonFence);
    assert s[2..][1..] == s[3..];
    StripKeepsHead(s[3..], JsonFence);
    assert s[3..][1..] == y;
    assert s[..3] == Fence;
    assert [s[0]] + ([s[1]] + ([s[2]] + ([s[3]] + StripAll(y, JsonFence)))) == Fence + "\n" + StripAll(y, JsonFence);
  }

  /** A reply fenced as "```json" ... "```" cleans to the trimmed reply. */
  lemma CleanJsonFencedReply(x: string)
    requires NoBacktick(x)
    ensures Clean(JsonFence + "\n" + x + "\n" + Fence) == Trim(x)
  {
    var body := x + "\n" + Fence;
    var s := JsonFence + "\n" + x + "\n" + Fence;
    assert s == JsonFence + "\n" + body;
    assert body == x + ("\n" + Fence);
    StripClosingMarker();
    StripKeepsPrefix(x, "\n" + Fence, JsonFence);
    StripKeepsPrefix(x, "\n" + Fence, Fence);
    assert StripAll(body, JsonFence) == body;
    assert StripAll(body, Fence) == x + ['\n'];
    StripOpeningMarker(JsonFence, body);
    assert StripAll(s, JsonFence) == body;
    assert StripAll(StripAll(s, JsonFence), Fence) == x + ['\n'];
    TrimDropsTrailingSpace(x, '\n');
  }


  /** A reply fenced as "```" ... "```" cleans to the trimmed reply. */
  lemma CleanBareFencedReply(x: string)
    requires NoBacktick(x)
    ensures Clean(Fence + "\n" + x + "\n" + Fence) == Trim(x)
  {
    var body := x + "\n" + Fence;
    var s := Fence + "\n" + x + "\n" + Fence;
    assert s == Fence + "\n" + body;
    assert body == x + ("\n" + Fence);
    StripClosingMarker();
    StripKeepsPrefix(x, "\n" + Fence, JsonFence);
    StripKeepsPrefix(x, "\n" + Fence, Fence);
    assert StripAll(body, JsonFence) == body;
    assert StripAll(body, Fence) == x + ['\n'];
    StripJsonSkipsBareMarker(body);
    StripOpeningMarker(Fence, body);
    assert StripAll(s, JsonFence) == s;
    assert StripAll(StripAll(s, JsonFence), Fence) == x + ['\n'];
    TrimDropsTrailingSpace(x, '\n');
  }


  /** Fenced with "```json", fenced with "```", or bare: the same text goes
      on to the JSON decoder, provided the reply itself has no backtick. */
  lemma CleanFencedReply(x: string)
    requires NoBacktick(x)
    ensures Clean(JsonFence + "\n" + x + "\n" + Fence) == Clean(x)
    ensures Clean(Fence + "\n" + x + "\n" + Fence) == Clean(x)
  {
    CleanWithoutBackticks(x);
    CleanJsonFencedReply(x);
    CleanBareFencedReply(x);
  }
}
