/**
 * The key extractor: the global regular expression `/{{ __\('(.*?)'\) }}/g`
 * applied to a template's text, and the per-match `replace(re, '$1')` that
 * turns each matched string into its key.
 *
 * The pattern is the literal `{{ __('`, a lazy capture `(.*?)` and the
 * literal `') }}`. A JavaScript `.` without the `s` flag matches any
 * character except a line terminator. A global match scans left to right,
 * takes the leftmost position where the pattern matches, and resumes the
 * search at the end of that match.
 */
module Extract {
  import opened Dictionary

  /** The literal that opens a translation call in a template. */
  const Open: string := "{{ __('"
  /** The literal that closes it. */
  const Close: string := "') }}"

  /** The characters a JavaScript `.` does not match. */
  predicate IsLineTerminator(c: char)
  {
    c == '\n' || c == '\r' || c == '\U{2028}' || c == '\U{2029}'
  }

  predicate OccursAt(s: string, i: nat, t: string)
  {
    i + |t| <= |s| && s[i..i + |t|] == t
  }

  /** `(.*?)'\) }}` can match from j with the capture `s[j..p]`. */
  ghost predicate CaptureEndsAt(s: string, j: nat, p: nat)
  {
    j <= p && OccursAt(s, p, Close) && forall q :: j <= q < p ==> !IsLineTerminator(s[q])
  }

  /** The whole pattern can match from i with the capture ending at p. */
  ghost predicate IsMatch(s: string, i: nat, p: nat)
  {
    OccursAt(s, i, Open) && CaptureEndsAt(s, i + |Open|, p)
  }

  /**
   * The lazy capture started at j: the regex tries captures of length 0, 1,
   * 2, ... and keeps the first after which `') }}` follows.
   */
  function CloseFrom(s: string, j: nat): (r: Option<nat>)
    requires j <= |s|
    decreases |s| - j
    ensures r.Some? ==> j <= r.value && r.value + |Close| <= |s|
  {
    if OccursAt(s, j, Close) then Some(j)
    else if j == |s| || IsLineTerminator(s[j]) then None
    else CloseFrom(s, j + 1)
  }

  /** CloseFrom finds the shortest capture after which `') }}` follows, and fails only when there is none. */
  lemma {:induction false} CloseFromIsLazy(s: string, j: nat)
    requires j <= |s|
    decreases |s| - j
    ensures CloseFrom(s, j).Some? ==> CaptureEndsAt(s, j, CloseFrom(s, j).value)
    ensures CloseFrom(s, j).Some? ==> forall p :: j <= p < CloseFrom(s, j).value ==> !CaptureEndsAt(s, j, p)
    ensures CloseFrom(s, j).None? ==> forall p :: !CaptureEndsAt(s, j, p)
  {
    if OccursAt(s, j, Close) {
    } else if j == |s| {
    } else if IsLineTerminator(s[j]) {
      forall p ensures !CaptureEndsAt(s, j, p) {
        if j < p && OccursAt(s, p, Close) {
          assert j <= j < p && IsLineTerminator(s[j]);
        }
      }
    } else {
      CloseFromIsLazy(s, j + 1);
      forall p | j + 1 <= p ensures CaptureEndsAt(s, j, p) <==> CaptureEndsAt(s, j + 1, p) {
        if CaptureEndsAt(s, j + 1, p) {
          forall q | j <= q < p ensures !IsLineTerminator(s[q]) {
            if q > j {
              assert j + 1 <= q;
            }
          }
        }
      }
    }
  }

  /** The pattern tried at position i: where its capture ends, if it matches there. */
  function MatchAt(s: string, i: nat): (r: Option<nat>)
    requires i <= |s|
    ensures r.Some? ==> i + |Open| <= r.value && r.value + |Close| <= |s|
  {
    if OccursAt(s, i, Open) then CloseFrom(s, i + |Open|) else None
  }

  /** MatchAt is the regex tried at one position: the shortest match there, or none when there is none. */
  lemma MatchAtIsLazy(s: string, i: nat)
    requires i <= |s|
    ensures MatchAt(s, i).Some? ==> IsMatch(s, i, MatchAt(s, i).value)
    ensures MatchAt(s, i).Some? ==> forall p: nat :: p < MatchAt(s, i).value ==> !IsMatch(s, i, p)
    ensures MatchAt(s, i).None? ==> forall p: nat :: !IsMatch(s, i, p)
  {
    if OccursAt(s, i, Open) {
      CloseFromIsLazy(s, i + |Open|);
    }
  }

  /**
   * One match: the matched text is `s[start..close + |Close|]` and the
   * captured key is `s[start + |Open|..close]`.
   */
  datatype Match = Match(start: nat, close: nat)

  /** The leftmost match at or after position i. */
  function FirstMatchFrom(s: string, i: nat): (r: Option<Match>)
    requires i <= |s|
    decreases |s| - i
    ensures r.Some? ==> i <= r.value.start <= |s| && MatchAt(s, r.value.start) == Some(r.value.close)
    ensures r.Some? ==> forall p :: i <= p < r.value.start ==> MatchAt(s, p).None?
    ensures r.None? ==> forall p :: i <= p <= |s| ==> MatchAt(s, p).None?
  {
    match MatchAt(s, i)
    case Some(c) => Some(Match(i, c))
    case None => if i == |s| then None else FirstMatchFrom(s, i + 1)
  }

  /** The global search from position i: each search resumes where the previous match ended. */
  function Scan(s: string, i: nat): (ms: seq<Match>)
    requires i <= |s|
    decreases |s| - i
    ensures forall k :: 0 <= k < |ms| ==> i <= ms[k].start <= |s| && MatchAt(s, ms[k].start) == Some(ms[k].close)
    ensures forall j, k :: 0 <= j < k < |ms| ==> ms[j].close + |Close| <= ms[k].start
  {
    match FirstMatchFrom(s, i)
    case None => []
    case Some(m) => [m] + Scan(s, m.close + |Close|)
  }

  /** Position p lies inside one of the matches ms. */
  ghost predicate Covered(ms: seq<Match>, p: nat)
  {
    exists k :: 0 <= k < |ms| && ms[k].start <= p < ms[k].close + |Close|
  }

  /** Every position where the pattern matches lies inside one of the matches found. */
  lemma {:induction false} ScanComplete(s: string, i: nat)
    requires i <= |s|
    decreases |s| - i
    ensures forall p :: i <= p <= |s| && MatchAt(s, p).Some? ==> Covered(Scan(s, i), p)
  {
    var ms := Scan(s, i);
    var first := FirstMatchFrom(s, i);
    if first.Some? {
      var m := first.value;
      var e := m.close + |Close|;
      var rest := Scan(s, e);
      ScanComplete(s, e);
      assert ms == [m] + rest;
      forall p | i <= p <= |s| && MatchAt(s, p).Some?
        ensures Covered(ms, p)
      {
        if p < m.start {
          assert false;
        } else if p < e {
          assert ms[0] == m;
        } else {
          assert Covered(rest, p);
          var k :| 0 <= k < |rest| && rest[k].start <= p < rest[k].close + |Close|;
          assert ms[k + 1] == rest[k];
        }
      }
    }
  }

  /** The strings `s.match(re_g)` returns, in order (its `null` for no match read as none). */
  function MatchTexts(s: string): (ts: seq<string>)
  {
    var ms := Scan(s, 0);
    seq(|ms|, k requires 0 <= k < |ms| => s[ms[k].start .. ms[k].close + |Close|])
  }

  /** The keys captured by the global search, in order. */
  function ExtractKeys(s: string): (keys: seq<string>)
  {
    var ms := Scan(s, 0);
    seq(|ms|, k requires 0 <= k < |ms| => s[ms[k].start + |Open| .. ms[k].close])
  }

  /** `t.replace(re, '$1')`: the first match in t is replaced by its capture. */
  function ReplaceWithCapture(t: string): string
  {
    match FirstMatchFrom(t, 0)
    case None => t
    case Some(m) => t[..m.start] + t[m.start + |Open| .. m.close] + t[m.close + |Close|..]
  }

  lemma SliceOfSlice(s: string, i: nat, j: nat, a: nat, b: nat)
    requires i <= j <= |s| && a <= b <= j - i
    ensures s[i..j][a..b] == s[i + a..i + b]
  {
    forall q | 0 <= q < b - a ensures s[i..j][a..b][q] == s[i + a..i + b][q] {
      assert s[i..j][a..b][q] == s[i + a + q];
    }
  }

  /** A match inside the matched text of s at i is a match of s itself. */
  lemma MatchInSlice(s: string, i: nat, c: nat, p: nat)
    requires i <= |s|
    requires MatchAt(s, i) == Some(c)
    requires IsMatch(s[i..c + |Close|], 0, p)
    ensures IsMatch(s, i, i + p)
  {
    var t := s[i..c + |Close|];
    assert |t| == c + |Close| - i;
    MatchAtIsLazy(s, i);
    assert OccursAt(t, p, Close);
    SliceOfSlice(s, i, c + |Close|, p, p + |Close|);
    SliceOfSlice(s, i, c + |Close|, 0, |Open|);
    forall q | i + |Open| <= q < i + p ensures !IsLineTerminator(s[q]) {
      assert s[q] == t[q - i];
    }
  }

  /** Matching the matched text again from its start finds the same match. */
  lemma MatchedTextMatchesAgain(s: string, i: nat, c: nat)
    requires i <= |s|
    requires MatchAt(s, i) == Some(c)
    ensures MatchAt(s[i..c + |Close|], 0) == Some(c - i)
  {
    var t := s[i..c + |Close|];
    MatchAtIsLazy(s, i);
    assert t[..|Open|] == s[i..i + |Open|];
    assert t[c - i..c - i + |Close|] == s[c..c + |Close|];
    forall q | |Open| <= q < c - i ensures !IsLineTerminator(t[q]) {
      assert t[q] == s[i + q];
    }
    assert IsMatch(t, 0, c - i);
    MatchAtIsLazy(t, 0);
    var r := MatchAt(t, 0).value;
    MatchInSlice(s, i, c, r);
  }

  /** When the first match spans all of t, the replacement leaves just the capture. */
  lemma ReplaceWholeMatch(t: string, c: nat)
    requires MatchAt(t, 0) == Some(c) && c + |Close| == |t|
    ensures ReplaceWithCapture(t) == t[|Open|..c]
  {
    assert FirstMatchFrom(t, 0) == Some(Match(0, c));
    assert t[c + |Close|..] == [];
    assert t[..0] == [];
  }

  /** `replace(re, '$1')` applied to a matched string yields its capture. */
  lemma ReplaceOnMatchedText(s: string, i: nat, c: nat)
    requires i <= |s|
    requires MatchAt(s, i) == Some(c)
    ensures ReplaceWithCapture(s[i..c + |Close|]) == s[i + |Open|..c]
  {
    var t := s[i..c + |Close|];
    assert |t| == c - i + |Close|;
    MatchedTextMatchesAgain(s, i, c);
    ReplaceWholeMatch(t, c - i);
    SliceOfSlice(s, i, c + |Close|, |Open|, c - i);
  }

  /** The k-th matched string and the k-th key, as slices of s around the k-th match. */
  lemma MatchTextAndKeyAt(s: string, k: nat)
    requires k < |Scan(s, 0)|
    ensures Scan(s, 0)[k].start <= |s| && MatchAt(s, Scan(s, 0)[k].start) == Some(Scan(s, 0)[k].close)
    ensures MatchTexts(s)[k] == s[Scan(s, 0)[k].start .. Scan(s, 0)[k].close + |Close|]
    ensures ExtractKeys(s)[k] == s[Scan(s, 0)[k].start + |Open| .. Scan(s, 0)[k].close]
  {
  }

  /** `replace(re, '$1')` applied to the k-th matched string yields the k-th key. */
  lemma ReplaceYieldsKey(s: string, k: nat)
    requires k < |Scan(s, 0)|
    ensures ReplaceWithCapture(MatchTexts(s)[k]) == ExtractKeys(s)[k]
  {
    MatchTextAndKeyAt(s, k);
    var m := Scan(s, 0)[k];
    ReplaceOnMatchedText(s, m.start, m.close);
  }

  /** Applying `replace(re, '$1')` to each matched string yields exactly the extracted keys. */
  lemma ReplaceYieldsKeys(s: string)
    ensures |MatchTexts(s)| == |ExtractKeys(s)|
    ensures forall k :: 0 <= k < |MatchTexts(s)| ==> ReplaceWithCapture(MatchTexts(s)[k]) == ExtractKeys(s)[k]
  {
    forall k | 0 <= k < |MatchTexts(s)|
      ensures ReplaceWithCapture(MatchTexts(s)[k]) == ExtractKeys(s)[k]
    {
      ReplaceYieldsKey(s, k);
    }
  }

  /** A key as the lazy capture can produce it: no line terminator and no `') }}` inside. */
  predicate IsCleanKey(key: string)
  {
    && (forall q :: 0 <= q < |key| ==> !IsLineTerminator(key[q]))
    && (forall q :: 0 <= q <= |key| ==> !OccursAt(key, q, Close))
  }

  /**
   * A capture is the text between an occurrence of `{{ __('` and the first
   * `') }}` after it.
   */
  lemma CaptureShape(s: string, i: nat, c: nat)
    requires i <= |s|
    requires MatchAt(s, i) == Some(c)
    ensures OccursAt(s, i, Open + s[i + |Open|..c] + Close)
    ensures IsCleanKey(s[i + |Open|..c])
  {
    var b := i + |Open|;
    var key := s[b..c];
    MatchAtIsLazy(s, i);
    assert s[i..c + |Close|] == s[i..b] + key + s[c..c + |Close|];
    forall q | 0 <= q < |key| ensures !IsLineTerminator(key[q]) {
      assert key[q] == s[b + q];
    }
    forall q | 0 <= q <= |key| ensures !OccursAt(key, q, Close) {
      if q + |Close| <= |key| {
        assert !IsMatch(s, i, b + q);
        SliceOfSlice(s, b, c, q, q + |Close|);
      }
    }
  }

  /**
   * Each key is the text between an occurrence of `{{ __('` and the first
   * `') }}` after it: it contains neither `') }}` nor a line terminator.
   */
  lemma ExtractedKeyShape(s: string, k: nat)
    requires k < |ExtractKeys(s)|
    ensures OccursAt(s, Scan(s, 0)[k].start, Open + ExtractKeys(s)[k] + Close)
    ensures IsCleanKey(ExtractKeys(s)[k])
  {
    MatchTextAndKeyAt(s, k);
    var m := Scan(s, 0)[k];
    CaptureShape(s, m.start, m.close);
  }

  /** The search finds no key exactly when the pattern matches nowhere in the text. */
  lemma NoMatchNoKeys(s: string)
    ensures ExtractKeys(s) == [] <==> forall p :: 0 <= p <= |s| ==> MatchAt(s, p).None?
  {
    ScanComplete(s, 0);
    if ExtractKeys(s) == [] {
      assert Scan(s, 0) == [];
    }
  }

  lemma NotOccursAt(s: string, j: nat, t: string)
    requires j < |s| && t != [] && s[j] != t[0]
    ensures !OccursAt(s, j, t)
  {
  }

  /** In `{{ __('Log in') }}` the pattern matches at the start, closing at index 13. */
  lemma LogInMatch()
    ensures MatchAt("{{ __('Log in') }}", 0) == Some(13)
  {
    var s := "{{ __('Log in') }}";
    assert OccursAt(s, 0, Open);
    assert OccursAt(s, 13, Close);
    assert CloseFrom(s, 13) == Some(13);
    NotOccursAt(s, 12, Close);
    assert CloseFrom(s, 12) == Some(13);
    NotOccursAt(s, 11, Close);
    assert CloseFrom(s, 11) == Some(13);
    NotOccursAt(s, 10, Close);
    assert CloseFrom(s, 10) == Some(13);
    NotOccursAt(s, 9, Close);
    assert CloseFrom(s, 9) == Some(13);
    NotOccursAt(s, 8, Close);
    assert CloseFrom(s, 8) == Some(13);
    NotOccursAt(s, 7, Close);
    assert CloseFrom(s, 7) == Some(13);
  }

  /** The template `{{ __('Log in') }}` yields the single key `Log in`. */
  lemma LogInExample()
    ensures ExtractKeys("{{ __('Log in') }}") == ["Log in"]
  {
    var s := "{{ __('Log in') }}";
    LogInMatch();
    assert FirstMatchFrom(s, 0) == Some(Match(0, 13));
    assert FirstMatchFrom(s, 18) == None;
    assert Scan(s, 0) == [Match(0, 13)];
    MatchTextAndKeyAt(s, 0);
    assert s[7..13] == "Log in";
  }
}
