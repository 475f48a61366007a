/**
 * The pure helpers of the backend: the Cookie-header parser, the download
 * filename sanitiser and the zero-padded invoice number.
 */
module ServerHelpers {
  import opened Wrappers
  import opened JsText

  // ---------------------------------------------------------------------------
  // parseCookie (backend/server.js, lines 93-100)

  /** `t` is `raw`, then its first `=`, then `v`. */
  ghost predicate AtFirstEquals(t: string, raw: string, v: string) {
    '=' !in raw && t == raw + ['='] + v
  }

  /** `t.split("=")` has one piece when `t` holds no `=`, and otherwise its first piece ends at the first `=`. */
  lemma SplitAtFirstEquals(t: string)
    ensures '=' !in t ==> Split(t, '=') == [t]
    ensures '=' in t ==> |Split(t, '=')| > 1 && AtFirstEquals(t, Split(t, '=')[0], Join(Split(t, '=')[1..], '='))
  {
    var ps := Split(t, '=');
    JoinSplit(t, '=');
    if |ps| == 1 {
      assert t == ps[0];
    } else {
      assert t == ps[0] + ['='] + Join(ps[1..], '=');
      assert t[|ps[0]|] == '=';
    }
  }

  /** `k.trim()` of `const [k, ...rest] = part.trim().split("=")`: the trimmed text before the first `=`. */
  function CookieKey(part: string): (k: string)
    ensures '=' !in k
    ensures k == [] || (!IsSpace(k[0]) && !IsSpace(k[|k| - 1]))
    ensures '=' !in Trim(part) ==> k == Trim(part)
    ensures '=' in Trim(part) ==> exists raw, v :: AtFirstEquals(Trim(part), raw, v) && k == Trim(raw)
  {
    KeyBeforeFirstEquals(Trim(part));
    Trim(Split(Trim(part), '=')[0])
  }

  /** In a trimmed part, the trimmed first `=`-piece has no `=`, is the whole part when there is no `=`, and otherwise is the trimmed text before the first one. */
  lemma KeyBeforeFirstEquals(t: string)
    requires t == [] || (!IsSpace(t[0]) && !IsSpace(t[|t| - 1]))
    ensures '=' !in Trim(Split(t, '=')[0])
    ensures '=' !in t ==> Trim(Split(t, '=')[0]) == t
    ensures '=' in t ==> exists raw, v :: AtFirstEquals(t, raw, v) && Trim(Split(t, '=')[0]) == Trim(raw)
  {
    SplitAtFirstEquals(t);
    var raw := Split(t, '=')[0];
    TrimAvoids(raw, '=');
    if '=' !in t {
      TrimUnchanged(t);
    } else {
      assert AtFirstEquals(t, raw, Join(Split(t, '=')[1..], '='));
    }
  }

  /** `rest.join("=")`: everything after the first `=`, or "" when there is none. */
  function CookieValue(part: string): (v: string)
    ensures '=' !in Trim(part) ==> v == []
    ensures '=' in Trim(part) ==> exists raw :: AtFirstEquals(Trim(part), raw, v)
  {
    var t := Trim(part);
    SplitAtFirstEquals(t);
    Join(Split(t, '=')[1..], '=')
  }

  /** One `(key, value)` assignment per `;`-separated part, in order. */
  function CookiePairs(parts: seq<string>): (pairs: seq<(string, string)>)
    ensures |pairs| == |parts|
    ensures forall i :: 0 <= i < |parts| ==> pairs[i] == (CookieKey(parts[i]), CookieValue(parts[i]))
  {
    seq(|parts|, i requires 0 <= i < |parts| => (CookieKey(parts[i]), CookieValue(parts[i])))
  }

  /** The `reduce`: starting from `{}`, each assignment in turn sets its key, so later ones overwrite earlier ones. */
  function Assign(pairs: seq<(string, string)>): (r: map<string, string>)
    ensures forall i :: 0 <= i < |pairs| ==> pairs[i].0 in r
    ensures forall k :: k in r ==> exists i :: 0 <= i < |pairs| && pairs[i].0 == k
  {
    if pairs == [] then map[]
    else
      var init := pairs[..|pairs| - 1];
      assert forall i :: 0 <= i < |init| ==> init[i] == pairs[i];
      Assign(init)[pairs[|pairs| - 1].0 := pairs[|pairs| - 1].1]
  }

  /** `parseCookie(header)`: a missing or empty header gives `{}`, any other defines exactly the keys its parts name. */
  function ParseCookie(header: Option<string>): (r: map<string, string>)
    ensures header.None? || header.value == [] ==> r == map[]
    ensures header.Some? && header.value != [] ==> forall k :: k in r <==> NamesKey(Split(header.value, ';'), k)
  {
    if header.None? || header.value == [] then map[]
    else
      var parts := Split(header.value, ';');
      assert forall k :: k in Assign(CookiePairs(parts)) <==> NamesKey(parts, k) by {
        forall k ensures k in Assign(CookiePairs(parts)) <==> NamesKey(parts, k) {
          CookieKeysOfParts(parts, k);
        }
      }
      Assign(CookiePairs(parts))
  }

  /** A trimmed part `a=b` with no `=` in `a` has the key `a` (trimmed) and the value `b`, which may hold further `=`. */
  lemma CookiePartSplitsAtFirstEquals(part: string, a: string, b: string)
    requires Trim(part) == a + ['='] + b && '=' !in a
    ensures CookieKey(part) == Trim(a) && CookieValue(part) == b
  {
    SplitAround(a, b, '=');
    JoinSplit(b, '=');
    assert Split(Trim(part), '=')[1..] == Split(b, '=');
  }

  /** A part with no `=` maps its trimmed text to the empty value. */
  lemma CookiePartWithoutEquals(part: string)
    requires '=' !in Trim(part)
    ensures CookieKey(part) == Trim(part) && CookieValue(part) == ""
  {
    SplitNoSeparator(Trim(part), '=');
    var t := Trim(part);
    TrimUnchanged(t);
  }

  /** A key's value is the one of the last assignment to it. */
  lemma {:induction false} AssignLastWins(pairs: seq<(string, string)>, i: nat)
    requires i < |pairs|
    requires forall j :: i < j < |pairs| ==> pairs[j].0 != pairs[i].0
    ensures pairs[i].0 in Assign(pairs) && Assign(pairs)[pairs[i].0] == pairs[i].1
  {
    var n := |pairs| - 1;
    if i < n {
      var init := pairs[..n];
      assert init[i] == pairs[i];
      forall j | i < j < |init|
        ensures init[j].0 != init[i].0
      {
        assert init[j] == pairs[j];
      }
      AssignLastWins(init, i);
    }
  }

  /** Some part of the header has the key `k`. */
  ghost predicate NamesKey(parts: seq<string>, k: string) {
    exists i :: 0 <= i < |parts| && CookieKey(parts[i]) == k
  }

  /** The parsed parts define exactly their own keys. */
  lemma CookieKeysOfParts(parts: seq<string>, k: string)
    ensures k in Assign(CookiePairs(parts)) <==> NamesKey(parts, k)
  {
    var pairs := CookiePairs(parts);
    if k in Assign(pairs) {
      var i :| 0 <= i < |pairs| && pairs[i].0 == k;
      assert CookieKey(parts[i]) == k;
    }
    if exists i :: 0 <= i < |parts| && CookieKey(parts[i]) == k {
      var i :| 0 <= i < |parts| && CookieKey(parts[i]) == k;
      assert pairs[i].0 == k;
    }
  }

  /** The value of a key is taken from the last part that names it. */
  lemma ParseCookieLastWins(header: string, i: nat)
    requires header != [] && i < |Split(header, ';')|
    requires forall j :: i < j < |Split(header, ';')| ==> CookieKey(Split(header, ';')[j]) != CookieKey(Split(header, ';')[i])
    ensures CookieKey(Split(header, ';')[i]) in ParseCookie(Some(header))
    ensures ParseCookie(Some(header))[CookieKey(Split(header, ';')[i])] == CookieValue(Split(header, ';')[i])
  {
    var parts := Split(header, ';');
    assert ParseCookie(Some(header)) == Assign(CookiePairs(parts));
    CookieLastWinsOfParts(parts, i);
  }

  /** Among the parsed parts, the last one naming a key gives its value. */
  lemma CookieLastWinsOfParts(parts: seq<string>, i: nat)
    requires i < |parts|
    requires forall j :: i < j < |parts| ==> CookieKey(parts[j]) != CookieKey(parts[i])
    ensures CookieKey(parts[i]) in Assign(CookiePairs(parts))
    ensures Assign(CookiePairs(parts))[CookieKey(parts[i])] == CookieValue(parts[i])
  {
    var pairs := CookiePairs(parts);
    assert pairs[i].0 == CookieKey(parts[i]);
    forall j | i < j < |pairs|
      ensures pairs[j].0 != pairs[i].0
    {
      assert pairs[j].0 == CookieKey(parts[j]);
    }
    AssignLastWins(pairs, i);
  }

  // ---------------------------------------------------------------------------
  // toSafeFilename (backend/server.js, lines 331-341)

  const MaxFilenameLength: nat := 120
  const DefaultFallback: string := "file"

  /** `[a-zA-Z0-9._-]`. */
  predicate Allowed(c: char) {
    ('a' <= c <= 'z') || ('A' <= c <= 'Z') || ('0' <= c <= '9') || c == '.' || c == '_' || c == '-'
  }

  predicate IsEdge(c: char) {
    c == '_' || c == '-'
  }

  /** No two `c` side by side. */
  predicate NoDouble(s: string, c: char) {
    forall i :: 0 <= i < |s| - 1 ==> !(s[i] == c && s[i + 1] == c)
  }

  /** What the sanitiser promises of a cleaned name. */
  predicate SafeName(s: string) {
    |s| <= MaxFilenameLength
    && (forall i :: 0 <= i < |s| ==> Allowed(s[i]))
    && NoDouble(s, '_') && NoDouble(s, '-')
    && (s == [] || (!IsEdge(s[0]) && !IsEdge(s[|s| - 1])))
  }

  /** `.replace(/\s+/g, "_")`: every maximal run of whitespace becomes one `_`. */
  function SpaceRunsToUnderscore(s: string): (r: string)
    ensures forall i :: 0 <= i < |r| ==> !IsSpace(r[i])
  {
    if s == [] then []
    else if IsSpace(s[0]) then
      if |s| > 1 && IsSpace(s[1]) then SpaceRunsToUnderscore(s[1..]) else ['_'] + SpaceRunsToUnderscore(s[1..])
    else
      [s[0]] + SpaceRunsToUnderscore(s[1..])
  }

  /** The result holds no whitespace: each character is a `_` or a non-whitespace character of the input. */
  lemma {:induction false} SpaceRunsChars(s: string)
    ensures forall i :: 0 <= i < |SpaceRunsToUnderscore(s)| ==>
      SpaceRunsToUnderscore(s)[i] == '_' || (SpaceRunsToUnderscore(s)[i] in s && !IsSpace(SpaceRunsToUnderscore(s)[i]))
  {
    if s != [] {
      SpaceRunsChars(s[1..]);
      assert forall c :: c in s[1..] ==> c in s;
    }
  }

  /** `.replace(/[^a-zA-Z0-9._-]/g, "-")`: every disallowed character becomes `-`. */
  function ReplaceDisallowed(s: string): (r: string)
    ensures |r| == |s|
    ensures forall i :: 0 <= i < |r| ==> Allowed(r[i])
    ensures forall i :: 0 <= i < |s| ==> (Allowed(s[i]) ==> r[i] == s[i]) && (!Allowed(s[i]) ==> r[i] == '-')
  {
    seq(|s|, i requires 0 <= i < |s| => if Allowed(s[i]) then s[i] else '-')
  }

  /** `.replace(/c{2,}/g, "c")`: every run of `c` becomes a single `c`. */
  function Squeeze(s: string, c: char): (r: string)
    ensures |r| <= |s|
    ensures s != [] ==> r != [] && r[0] == s[0]
    ensures forall i :: 0 <= i < |r| ==> r[i] in s
    ensures NoDouble(r, c)
  {
    if |s| < 2 then s
    else if s[0] == c && s[1] == c then Squeeze(s[1..], c)
    else [s[0]] + Squeeze(s[1..], c)
  }

  /** `.replace(/^[_-]+/, "")`: drops the longest prefix of `_` and `-`, and nothing else. */
  function StripLeading(s: string): (r: string)
    ensures |r| <= |s| && r == s[|s| - |r|..]
    ensures forall i :: 0 <= i < |s| - |r| ==> IsEdge(s[i])
    ensures r == [] || !IsEdge(r[0])
  {
    if s != [] && IsEdge(s[0]) then
      EdgePrefixStep(s, StripLeading(s[1..]));
      StripLeading(s[1..])
    else s
  }

  /** An edge character in front of a suffix whose cut-off prefix is all edges extends that prefix by one. */
  lemma EdgePrefixStep(s: string, r: string)
    requires s != [] && IsEdge(s[0])
    requires |r| <= |s| - 1 && r == s[1..][|s| - 1 - |r|..]
    requires forall i :: 0 <= i < |s| - 1 - |r| ==> IsEdge(s[1..][i])
    ensures r == s[|s| - |r|..]
    ensures forall i :: 0 <= i < |s| - |r| ==> IsEdge(s[i])
  {
    forall i | 0 < i < |s| - |r| ensures IsEdge(s[i]) {
      assert s[i] == s[1..][i - 1];
    }
  }

  /** `.replace(/[_-]+$/, "")`: drops the longest suffix of `_` and `-`, and nothing else. */
  function StripTrailing(s: string): (r: string)
    ensures |r| <= |s| && r == s[..|r|]
    ensures forall i :: |r| <= i < |s| ==> IsEdge(s[i])
    ensures r == [] || !IsEdge(r[|r| - 1])
  {
    if s != [] && IsEdge(s[|s| - 1]) then StripTrailing(s[..|s| - 1]) else s
  }

  /** `.slice(0, 120)`: the first 120 characters, or all of them when there are fewer. */
  function Truncate(s: string): (r: string)
    ensures |r| == if |s| <= MaxFilenameLength then |s| else MaxFilenameLength
    ensures r == s[..|r|]
  {
    if |s| <= MaxFilenameLength then s else s[..MaxFilenameLength]
  }

  /** Lines 334-337: whitespace runs to `_`, other disallowed characters to `-`, then runs of `_` and of `-` collapsed. */
  function Collapsed(normalized: string): (r: string)
    ensures Collapsible(r)
  {
    var replaced := ReplaceDisallowed(SpaceRunsToUnderscore(normalized));
    var once := Squeeze(replaced, '_');
    SqueezeKeepsAllowed(replaced, '_');
    SqueezeKeepsAllowed(once, '-');
    SqueezeKeepsNoDouble(once, '-', '_');
    Squeeze(once, '-')
  }

  /** `r` is the slice of `t` that starts at `a`, and everything outside it is `_` or `-`. */
  ghost predicate SliceBetweenEdges(t: string, a: int, r: string) {
    && 0 <= a <= |t| - |r| && r == t[a..a + |r|]
    && (forall i :: 0 <= i < a ==> IsEdge(t[i]))
    && (forall i :: a + |r| <= i < |t| ==> IsEdge(t[i]))
  }

  /**
   * Lines 338-339: cut to 120 characters, then strip leading and trailing `_`
   * and `-`: a middle slice of the cut text, everything cut off being `_` or `-`.
   */
  function CutAndStrip(s: string): (r: string)
    ensures |r| <= MaxFilenameLength
    ensures exists a :: SliceBetweenEdges(Truncate(s), a, r)
    ensures r == [] || (!IsEdge(r[0]) && !IsEdge(r[|r| - 1]))
  {
    var t := Truncate(s);
    StripBothEnds(t, StripLeading(t), StripTrailing(StripLeading(t)));
    StripTrailing(StripLeading(t))
  }

  /** Stripping the end of the start-stripped text leaves a slice between edge characters. */
  lemma StripBothEnds(s: string, t: string, r: string)
    requires |t| <= |s| && t == s[|s| - |t|..] && forall i :: 0 <= i < |s| - |t| ==> IsEdge(s[i])
    requires |r| <= |t| && r == t[..|r|] && forall i :: |r| <= i < |t| ==> IsEdge(t[i])
    ensures SliceBetweenEdges(s, |s| - |t|, r)
  {
    var a := |s| - |t|;
    forall i | a + |r| <= i < |s| ensures IsEdge(s[i]) {
      assert s[i] == t[i - a];
    }
    assert r == s[a..a + |r|];
  }

  /** The chain of lines 333-339, applied to the already normalised text: always a safe name. */
  function CleanFilename(normalized: string): (r: string)
    ensures SafeName(r)
  {
    CutAndStripSafe(Collapsed(normalized));
    CutAndStrip(Collapsed(normalized))
  }

  /** `cleaned || fallback`. */
  function ToSafeFilename(normalized: string, fallback: string): (r: string)
    ensures fallback != [] ==> r != []
  {
    var cleaned := CleanFilename(normalized);
    if cleaned == [] then fallback else cleaned
  }

  /** Squeezing one character keeps another character's runs free of doubles. */
  lemma {:induction false} SqueezeKeepsNoDouble(s: string, c: char, d: char)
    requires c != d && NoDouble(s, d)
    ensures NoDouble(Squeeze(s, c), d)
    decreases |s|
  {
    if |s| >= 2 {
      assert NoDouble(s[1..], d) by {
        forall i | 0 <= i < |s[1..]| - 1
          ensures !(s[1..][i] == d && s[1..][i + 1] == d)
        {
          assert s[1..][i] == s[i + 1] && s[1..][i + 1] == s[i + 2];
        }
      }
      SqueezeKeepsNoDouble(s[1..], c, d);
    }
  }

  lemma SliceKeepsNoDouble(s: string, a: nat, b: nat, c: char)
    requires a <= b <= |s| && NoDouble(s, c)
    ensures NoDouble(s[a..b], c)
  {
    forall i | 0 <= i < |s[a..b]| - 1
      ensures !(s[a..b][i] == c && s[a..b][i + 1] == c)
    {
      assert s[a..b][i] == s[a + i] && s[a..b][i + 1] == s[a + i + 1];
    }
  }

  lemma SqueezeKeepsAllowed(s: string, c: char)
    requires forall i :: 0 <= i < |s| ==> Allowed(s[i])
    ensures forall i :: 0 <= i < |Squeeze(s, c)| ==> Allowed(Squeeze(s, c)[i])
  {
    var r := Squeeze(s, c);
    forall i | 0 <= i < |r|
      ensures Allowed(r[i])
    {
      assert r[i] in s;
    }
  }

  /** Allowed characters only, and no doubled `_` or `-`: what collapsing produces. */
  predicate Collapsible(s: string) {
    (forall i :: 0 <= i < |s| ==> Allowed(s[i])) && NoDouble(s, '_') && NoDouble(s, '-')
  }

  lemma SliceKeepsCollapsible(s: string, a: nat, b: nat)
    requires a <= b <= |s| && Collapsible(s)
    ensures Collapsible(s[a..b])
  {
    SliceKeepsNoDouble(s, a, b, '_');
    SliceKeepsNoDouble(s, a, b, '-');
    assert forall i :: 0 <= i < b - a ==> s[a..b][i] == s[a + i];
  }

  /** Cutting and stripping a collapsed name keeps it free of doubled `_` and `-` and of disallowed characters. */
  lemma CutAndStripSafe(s: string)
    requires Collapsible(s)
    ensures SafeName(CutAndStrip(s))
  {
    CutKeepsCollapsible(s);
    StripKeepsCollapsible(Truncate(s));
  }

  lemma CutKeepsCollapsible(s: string)
    requires Collapsible(s)
    ensures Collapsible(Truncate(s))
  {
    var r := Truncate(s);
    SliceKeepsCollapsible(s, 0, |r|);
    assert r == s[0..|r|];
  }

  lemma StripKeepsCollapsible(s: string)
    requires Collapsible(s)
    ensures Collapsible(StripTrailing(StripLeading(s)))
  {
    var t := StripLeading(s);
    SliceKeepsCollapsible(s, |s| - |t|, |s|);
    var r := StripTrailing(t);
    SliceKeepsCollapsible(t, 0, |r|);
    assert r == t[0..|r|];
  }

  /** Two whitespace characters side by side act as one, so a run of any length becomes a single `_`. */
  lemma {:induction false} SpaceRunShrinks(x: string, w1: char, w2: char, y: string)
    requires IsSpace(w1) && IsSpace(w2)
    ensures SpaceRunsToUnderscore(x + [w1, w2] + y) == SpaceRunsToUnderscore(x + [w2] + y)
    decreases |x|
  {
    if x == [] {
      assert x + [w1, w2] + y == [w1] + ([w2] + y);
      assert x + [w2] + y == [w2] + y;
    } else {
      SpaceRunShrinks(x[1..], w1, w2, y);
      assert (x + [w1, w2] + y)[1..] == x[1..] + [w1, w2] + y;
      assert (x + [w2] + y)[1..] == x[1..] + [w2] + y;
    }
  }

  /** Text that does not end in whitespace is converted independently of what follows it. */
  lemma {:induction false} SpaceRunsAppend(x: string, z: string)
    requires x == [] || !IsSpace(x[|x| - 1])
    ensures SpaceRunsToUnderscore(x + z) == SpaceRunsToUnderscore(x) + SpaceRunsToUnderscore(z)
    decreases |x|
  {
    if x == [] {
      assert x + z == z;
    } else {
      var u := x[1..];
      assert u != [] ==> u[|u| - 1] == x[|x| - 1];
      SpaceRunsAppend(u, z);
      if IsSpace(x[0]) {
        AppendAfterSpace(x, z);
      } else {
        AppendAfterOther(x, z);
      }
    }
  }

  /** A non-whitespace character in front is kept as it is. */
  lemma SpaceRunsOther(c: char, t: string)
    requires !IsSpace(c)
    ensures SpaceRunsToUnderscore([c] + t) == [c] + SpaceRunsToUnderscore(t)
  {
    assert ([c] + t)[1..] == t;
  }

  /** A whitespace character in front joins the run that `t` starts with, or becomes `_` when `t` does not start with whitespace. */
  lemma SpaceRunsSpace(w: char, t: string)
    requires IsSpace(w)
    ensures t != [] && IsSpace(t[0]) ==> SpaceRunsToUnderscore([w] + t) == SpaceRunsToUnderscore(t)
    ensures t == [] || !IsSpace(t[0]) ==> SpaceRunsToUnderscore([w] + t) == ['_'] + SpaceRunsToUnderscore(t)
  {
    assert ([w] + t)[1..] == t;
  }

  lemma AppendAfterOther(x: string, z: string)
    requires x != [] && !IsSpace(x[0])
    requires SpaceRunsToUnderscore(x[1..] + z) == SpaceRunsToUnderscore(x[1..]) + SpaceRunsToUnderscore(z)
    ensures SpaceRunsToUnderscore(x + z) == SpaceRunsToUnderscore(x) + SpaceRunsToUnderscore(z)
  {
    assert x == [x[0]] + x[1..] && x + z == [x[0]] + (x[1..] + z);
    SpaceRunsOther(x[0], x[1..]);
    SpaceRunsOther(x[0], x[1..] + z);
  }

  lemma AppendAfterSpace(x: string, z: string)
    requires |x| > 1 && IsSpace(x[0])
    requires SpaceRunsToUnderscore(x[1..] + z) == SpaceRunsToUnderscore(x[1..]) + SpaceRunsToUnderscore(z)
    ensures SpaceRunsToUnderscore(x + z) == SpaceRunsToUnderscore(x) + SpaceRunsToUnderscore(z)
  {
    assert x == [x[0]] + x[1..] && x + z == [x[0]] + (x[1..] + z);
    assert (x[1..] + z)[0] == x[1];
    SpaceRunsSpace(x[0], x[1..]);
    SpaceRunsSpace(x[0], x[1..] + z);
  }

  /** A single whitespace character between non-whitespace neighbours becomes one `_`; the text around it is converted on its own. */
  lemma SpaceAlone(x: string, w: char, y: string)
    requires IsSpace(w)
    requires x == [] || !IsSpace(x[|x| - 1])
    requires y == [] || !IsSpace(y[0])
    ensures SpaceRunsToUnderscore(x + [w] + y) == SpaceRunsToUnderscore(x) + ['_'] + SpaceRunsToUnderscore(y)
  {
    SpaceRunsAppend(x, [w] + y);
    assert x + [w] + y == x + ([w] + y);
    assert ([w] + y)[1..] == y;
  }

  /** Two `c` side by side act as one, so a run of `c` of any length becomes a single `c`. */
  lemma {:induction false} SqueezeRun(x: string, c: char, y: string)
    ensures Squeeze(x + [c, c] + y, c) == Squeeze(x + [c] + y, c)
    decreases |x|
  {
    if x == [] {
      assert x + [c, c] + y == [c] + ([c] + y);
      assert x + [c] + y == [c] + y;
    } else {
      SqueezeRun(x[1..], c, y);
      assert (x + [c, c] + y)[1..] == x[1..] + [c, c] + y;
      assert (x + [c] + y)[1..] == x[1..] + [c] + y;
    }
  }

  lemma {:induction false} SpaceRunsUnchanged(s: string)
    requires forall i :: 0 <= i < |s| ==> !IsSpace(s[i])
    ensures SpaceRunsToUnderscore(s) == s
  {
    if s != [] {
      SpaceRunsUnchanged(s[1..]);
    }
  }

  lemma {:induction false} SqueezeUnchanged(s: string, c: char)
    requires NoDouble(s, c)
    ensures Squeeze(s, c) == s
    decreases |s|
  {
    if |s| >= 2 {
      SliceKeepsNoDouble(s, 1, |s|, c);
      SqueezeUnchanged(s[1..], c);
    }
  }

  lemma AllowedIsNotSpace(s: string)
    requires forall i :: 0 <= i < |s| ==> Allowed(s[i])
    ensures forall i :: 0 <= i < |s| ==> !IsSpace(s[i])
  {
  }

  /** Collapsing leaves a name of allowed characters without doubled `_` or `-` as it is. */
  lemma CollapsedFixes(s: string)
    requires Collapsible(s)
    ensures Collapsed(s) == s
  {
    AllowedIsNotSpace(s);
    SpaceRunsUnchanged(s);
    assert ReplaceDisallowed(s) == s;
    SqueezeUnchanged(s, '_');
    SqueezeUnchanged(s, '-');
  }

  /** Cutting and stripping leaves a short name without edge `_` or `-` as it is. */
  lemma CutAndStripFixes(s: string)
    requires |s| <= MaxFilenameLength
    requires s == [] || (!IsEdge(s[0]) && !IsEdge(s[|s| - 1]))
    ensures CutAndStrip(s) == s
  {
  }

  /** A safe name is left as it is. */
  lemma CleanFilenameFixes(s: string)
    requires SafeName(s)
    ensures CleanFilename(s) == s
  {
    CollapsedFixes(s);
    CutAndStripFixes(s);
  }

  /** Cleaning twice is cleaning once, and so is sanitising twice with a safe fallback. */
  lemma ToSafeFilenameIdempotent(normalized: string, fallback: string)
    requires SafeName(fallback)
    ensures CleanFilename(CleanFilename(normalized)) == CleanFilename(normalized)
    ensures ToSafeFilename(ToSafeFilename(normalized, fallback), fallback) == ToSafeFilename(normalized, fallback)
  {
    CleanFilenameFixes(CleanFilename(normalized));
    CleanFilenameFixes(fallback);
  }

  /** The result is the cleaned name when that is non-empty, and the fallback otherwise. */
  lemma ToSafeFilenameResult(normalized: string, fallback: string)
    ensures CleanFilename(normalized) != [] ==>
              ToSafeFilename(normalized, fallback) == CleanFilename(normalized) && SafeName(ToSafeFilename(normalized, fallback))
    ensures CleanFilename(normalized) == [] ==> ToSafeFilename(normalized, fallback) == fallback
  {
  }

  /** The default fallback is itself a safe name, so with it the result is always safe and non-empty. */
  lemma DefaultFallbackSafe(normalized: string)
    ensures SafeName(ToSafeFilename(normalized, DefaultFallback))
    ensures ToSafeFilename(normalized, DefaultFallback) != []
  {
    var cleaned := CleanFilename(normalized);
    if cleaned == [] {
      DefaultFallbackIsSafe();
    }
  }

  lemma DefaultFallbackIsSafe()
    ensures SafeName(DefaultFallback)
  {
    var f := DefaultFallback;
    assert f == ['f', 'i', 'l', 'e'];
    forall i | 0 <= i < |f|
      ensures Allowed(f[i]) && !IsEdge(f[i])
    {
      assert i == 0 || i == 1 || i == 2 || i == 3;
    }
  }

  // ---------------------------------------------------------------------------
  // makeInvoiceNo (backend/server.js, lines 328-329)

  const InvoiceDigits: nat := 5

  function DigitChar(d: nat): char
    requires d < 10
  {
    ['0', '1', '2', '3', '4', '5', '6', '7', '8', '9'][d]
  }

  function DigitValue(c: char): nat {
    if '0' <= c <= '9' then (c as int - '0' as int) as nat else 0
  }

  predicate IsDigit(c: char) {
    '0' <= c <= '9'
  }

  /** `String(id)` for a non-negative integer id. */
  function DecimalString(n: nat): (s: string)
    ensures |s| >= 1 && forall i :: 0 <= i < |s| ==> IsDigit(s[i])
    ensures |s| == 1 <==> n < 10
    ensures |s| > 1 ==> s[0] != '0'
  {
    if n < 10 then [DigitChar(n)] else DecimalString(n / 10) + [DigitChar(n % 10)]
  }

  /** The number a string of decimal digits denotes. */
  function DecimalValue(s: string): nat {
    if s == [] then 0 else DecimalValue(s[..|s| - 1]) * 10 + DigitValue(s[|s| - 1])
  }

  function Repeat(c: char, k: nat): (r: string)
    ensures |r| == k && forall i :: 0 <= i < k ==> r[i] == c
  {
    if k == 0 then [] else [c] + Repeat(c, k - 1)
  }

  /** `s.padStart(width, c)`. */
  function PadStart(s: string, width: nat, c: char): (r: string)
    ensures |r| == if |s| >= width then |s| else width
    ensures |s| >= width ==> r == s
    ensures r[|r| - |s|..] == s && forall i :: 0 <= i < |r| - |s| ==> r[i] == c
  {
    if |s| >= width then s else Repeat(c, width - |s|) + s
  }

  /**
   * `INV-<date>-<id padded to 5 digits>`; the date text is supplied by the
   * caller. After the `INV-<date>-` prefix comes a field of digits that
   * denotes the id: exactly five digits when the plain decimal text is
   * shorter, and that text itself when it already has five or more.
   */
  function InvoiceNo(datePrefix: string, id: nat): (r: string)
    ensures |r| >= |datePrefix| + 5 + InvoiceDigits
    ensures r[..|datePrefix| + 5] == "INV-" + datePrefix + "-"
    ensures forall i :: |datePrefix| + 5 <= i < |r| ==> IsDigit(r[i])
    ensures |DecimalString(id)| >= InvoiceDigits ==> r[|datePrefix| + 5..] == DecimalString(id)
    ensures |DecimalString(id)| < InvoiceDigits ==> |r| == |datePrefix| + 5 + InvoiceDigits
    ensures DecimalValue(r[|datePrefix| + 5..]) == id
  {
    PaddedId(id);
    var prefix, field := "INV-" + datePrefix + "-", PadStart(DecimalString(id), InvoiceDigits, '0');
    assert (prefix + field)[..|prefix|] == prefix && (prefix + field)[|prefix|..] == field;
    prefix + field
  }

  lemma {:induction false} DecimalRoundTrip(n: nat)
    ensures DecimalValue(DecimalString(n)) == n
  {
    if n < 10 {
      DigitRoundTrip(n);
    } else {
      var q, d := n / 10, n % 10;
      DecimalRoundTrip(q);
      DigitRoundTrip(d);
      var s := DecimalString(n);
      assert s[..|s| - 1] == DecimalString(q) && s[|s| - 1] == DigitChar(d);
      assert q * 10 + d == n;
    }
  }

  lemma DigitRoundTrip(d: nat)
    requires d < 10
    ensures DigitValue(DigitChar(d)) == d
  {
  }

  lemma {:induction false} LeadingZerosKeepValue(k: nat, s: string)
    ensures DecimalValue(Repeat('0', k) + s) == DecimalValue(s)
    decreases k, |s|
  {
    if s == [] {
      assert Repeat('0', k) + s == Repeat('0', k);
      if k > 0 {
        assert Repeat('0', k)[..k - 1] == Repeat('0', k - 1);
        LeadingZerosKeepValue(k - 1, []);
        assert Repeat('0', k - 1) + [] == Repeat('0', k - 1);
      }
    } else {
      var init := s[..|s| - 1];
      LeadingZerosKeepValue(k, init);
      assert (Repeat('0', k) + s)[..|Repeat('0', k) + s| - 1] == Repeat('0', k) + init;
    }
  }

  /** The id padded to five digits: digits only, exactly five when shorter, unchanged when already long enough, denoting the id. */
  lemma PaddedId(id: nat)
    ensures var field := PadStart(DecimalString(id), InvoiceDigits, '0');
      |field| >= InvoiceDigits
      && (forall i :: 0 <= i < |field| ==> IsDigit(field[i]))
      && (|DecimalString(id)| >= InvoiceDigits ==> field == DecimalString(id))
      && (|DecimalString(id)| < InvoiceDigits ==> |field| == InvoiceDigits)
      && DecimalValue(field) == id
  {
    var digits := DecimalString(id);
    var field := PadStart(digits, InvoiceDigits, '0');
    var k := |field| - |digits|;
    forall i | k <= i < |field|
      ensures IsDigit(field[i])
    {
      assert field[i] == field[k..][i - k];
    }
    DecimalRoundTrip(id);
    if |digits| < InvoiceDigits {
      assert field == Repeat('0', k) + digits;
      LeadingZerosKeepValue(k, digits);
    }
  }
}
