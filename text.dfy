/**
  The handful of Python `str` operations the dependency script relies on,
  stated on `seq<char>`: `isspace`/`strip`, `startswith`/`endswith`,
  the `in` substring test, `replace(c, "")`, `lower` and `join`, with `FindFrom`,
  the search for a pattern behind `in` and behind `split("->")`.
 */
module Text {
  import opened Wrappers

  /** Python's `str.isspace` for one code point: the ASCII separators
      and the Unicode whitespace code points. */
  predicate IsSpace(c: char) {
    var n := c as int;
    (9 <= n <= 13) || (28 <= n <= 32) || n == 0x85 || n == 0xA0 || n == 0x1680
    || (0x2000 <= n <= 0x200A) || n == 0x2028 || n == 0x2029 || n == 0x202F
    || n == 0x205F || n == 0x3000
  }

  ghost predicate AllSpace(s: string) {
    forall k :: 0 <= k < |s| ==> IsSpace(s[k])
  }

  /** Neither starts nor ends with whitespace, as the result of `strip()`. */
  ghost predicate Trimmed(s: string) {
    s == [] || (!IsSpace(s[0]) && !IsSpace(s[|s| - 1]))
  }

  function StripLeft(s: string): (r: string)
    ensures |r| <= |s|
    ensures r == [] || !IsSpace(r[0])
  {
    if |s| > 0 && IsSpace(s[0]) then StripLeft(s[1..]) else s
  }

  function StripRight(s: string): (r: string)
    ensures |r| <= |s|
    ensures r == [] || !IsSpace(r[|r| - 1])
  {
    if |s| > 0 && IsSpace(s[|s| - 1]) then StripRight(s[..|s| - 1]) else s
  }

  /** Python's `s.strip()`: `s` with its leading and trailing whitespace removed. */
  function Strip(s: string): (r: string)
    ensures Trimmed(r) && |r| <= |s|
  {
    var l := StripLeft(s);
    StripRightPrefix(l);
    StripRight(l)
  }

  /** `lstrip()` removes a prefix of the string. */
  lemma {:induction false} StripLeftSuffix(s: string)
    ensures StripLeft(s) == s[|s| - |StripLeft(s)|..]
    decreases |s|
  {
    if |s| > 0 && IsSpace(s[0]) {
      StripLeftSuffix(s[1..]);
      assert s[1..][|s| - 1 - |StripLeft(s)|..] == s[|s| - |StripLeft(s)|..];
    }
  }

  /** `rstrip()` removes a suffix of the string. */
  lemma {:induction false} StripRightPrefix(s: string)
    ensures StripRight(s) == s[..|StripRight(s)|]
    decreases |s|
  {
    if |s| > 0 && IsSpace(s[|s| - 1]) {
      StripRightPrefix(s[..|s| - 1]);
      assert s[..|s| - 1][..|StripRight(s)|] == s[..|StripRight(s)|];
    }
  }

  /** What `lstrip()` removes is whitespace. */
  lemma {:induction false} StripLeftDropsSpaces(s: string)
    ensures AllSpace(s[..|s| - |StripLeft(s)|])
    decreases |s|
  {
    if |s| > 0 && IsSpace(s[0]) {
      StripLeftDropsSpaces(s[1..]);
      var n := |s| - |StripLeft(s)|;
      forall k | 0 <= k < n ensures IsSpace(s[..n][k]) {
        if k > 0 { assert s[..n][k] == s[1..][..n - 1][k - 1]; }
      }
    }
  }

  /** What `rstrip()` removes is whitespace. */
  lemma {:induction false} StripRightDropsSpaces(s: string)
    ensures AllSpace(s[|StripRight(s)|..])
    decreases |s|
  {
    if |s| > 0 && IsSpace(s[|s| - 1]) {
      var n := |s| - 1;
      StripRightDropsSpaces(s[..n]);
      var m := |StripRight(s)|;
      forall k | 0 <= k < |s| - m ensures IsSpace(s[m..][k]) {
        if m + k < n { assert s[m..][k] == s[..n][m..][k]; }
      }
    }
  }

  /** `strip()` starts with the non-space `c` exactly when `c` is the first non-space
      character of `s`. */
  lemma FirstNonSpace(s: string, c: char)
    requires !IsSpace(c)
    ensures (|Strip(s)| > 0 && Strip(s)[0] == c) <==>
              exists k :: 0 <= k < |s| && s[k] == c && AllSpace(s[..k])
  {
    var l := StripLeft(s);
    var p := |s| - |l|;
    StripLeftSuffix(s);
    StripLeftDropsSpaces(s);
    var r := Strip(s);
    assert r == StripRight(l);
    StripRightPrefix(l);
    StripRightEmpty(l);
    if |r| > 0 && r[0] == c {
      assert s[p] == l[0] == c;
    }
    if exists k :: 0 <= k < |s| && s[k] == c && AllSpace(s[..k]) {
      var k :| 0 <= k < |s| && s[k] == c && AllSpace(s[..k]);
      SpacesBefore(s, p);
      SpacesBefore(s, k);
      assert l[0] == s[p];
      assert l[0] == c;
      assert !AllSpace(l);
      assert r[0] == l[0];
    }
  }

  /** `strip()` ends with the non-space `c` exactly when `c` is the last non-space
      character of `s`. */
  lemma LastNonSpace(s: string, c: char)
    requires !IsSpace(c)
    ensures (|Strip(s)| > 0 && Strip(s)[|Strip(s)| - 1] == c) <==>
              exists k :: 0 <= k < |s| && s[k] == c && AllSpace(s[k + 1..])
  {
    var r := Strip(s);
    if |r| > 0 && r[|r| - 1] == c {
      var q := StripEnd(s);
      assert s[q - 1] == c && AllSpace(s[q - 1 + 1..]);
    }
    if exists k :: 0 <= k < |s| && s[k] == c && AllSpace(s[k + 1..]) {
      var k :| 0 <= k < |s| && s[k] == c && AllSpace(s[k + 1..]);
      LastNonSpaceAt(s, c, k);
    }
  }

  /** The index just past what `strip()` keeps: the kept text ends there, and
      only whitespace follows. */
  lemma StripEnd(s: string) returns (q: nat)
    ensures |Strip(s)| <= q <= |s| && AllSpace(s[q..])
    ensures |Strip(s)| > 0 ==> Strip(s)[|Strip(s)| - 1] == s[q - 1]
    ensures AllSpace(s[..q - |Strip(s)|])
    ensures Strip(s) == s[q - |Strip(s)|..q]
  {
    var l := StripLeft(s);
    var p := |s| - |l|;
    StripLeftSuffix(s);
    StripLeftDropsSpaces(s);
    var r := Strip(s);
    assert r == StripRight(l);
    StripRightPrefix(l);
    StripRightDropsSpaces(l);
    q := p + |r|;
    assert s[q..] == l[|r|..];
    assert s[p..q] == l[..|r|];
  }

  /** A non-space `c` followed only by whitespace is what `strip()` ends with. */
  lemma LastNonSpaceAt(s: string, c: char, k: nat)
    requires !IsSpace(c) && k < |s| && s[k] == c && AllSpace(s[k + 1..])
    ensures |Strip(s)| > 0 && Strip(s)[|Strip(s)| - 1] == c
  {
    var r := Strip(s);
    var q := StripEnd(s);
    var p := q - |r|;
    SpacesBefore(s, p);
    assert p <= k;
    SpacesAfter(s, k);
    assert k < q by {
      SpacesFrom(s, q);
    }
    assert r != [] by {
      assert r[k - p] == s[k];
    }
    SpacesAfter(s, q - 1);
    assert !IsSpace(s[q - 1]);
  }

  /** Whitespace from `k` on, index by index. */
  lemma SpacesFrom(s: string, k: nat)
    requires k <= |s| && AllSpace(s[k..])
    ensures forall j :: k <= j < |s| ==> IsSpace(s[j])
  {
    forall j | k <= j < |s| ensures IsSpace(s[j]) {
      assert s[k..][j - k] == s[j];
    }
  }

  /** Whitespace before `k`, index by index. */
  lemma SpacesBefore(s: string, k: nat)
    requires k <= |s| && AllSpace(s[..k])
    ensures forall j :: 0 <= j < k ==> IsSpace(s[j])
  {
    forall j | 0 <= j < k ensures IsSpace(s[j]) {
      assert s[..k][j] == s[j];
    }
  }

  /** Whitespace after `k`, index by index. */
  lemma SpacesAfter(s: string, k: nat)
    requires k < |s| && AllSpace(s[k + 1..])
    ensures forall j :: k < j < |s| ==> IsSpace(s[j])
  {
    forall j | k < j < |s| ensures IsSpace(s[j]) {
      assert s[k + 1..][j - k - 1] == s[j];
    }
  }

  /** `strip()` leaves nothing exactly when the string is all whitespace. */
  lemma StripEmpty(s: string)
    ensures Strip(s) == [] <==> AllSpace(s)
  {
    StripLeftEmpty(s);
    var l := StripLeft(s);
    if l != [] {
      StripRightEmpty(l);
    }
  }

  lemma {:induction false} StripLeftEmpty(s: string)
    ensures StripLeft(s) == [] <==> AllSpace(s)
    decreases |s|
  {
    if |s| > 0 && IsSpace(s[0]) {
      StripLeftEmpty(s[1..]);
      assert AllSpace(s) <==> AllSpace(s[1..]) by {
        if AllSpace(s[1..]) {
          forall k | 0 <= k < |s| ensures IsSpace(s[k]) {
            if k > 0 { assert s[k] == s[1..][k - 1]; }
          }
        }
        if AllSpace(s) {
          forall k | 0 <= k < |s| - 1 ensures IsSpace(s[1..][k]) { assert s[1..][k] == s[k + 1]; }
        }
      }
    }
  }

  lemma {:induction false} StripRightEmpty(s: string)
    ensures StripRight(s) == [] <==> AllSpace(s)
    decreases |s|
  {
    if |s| > 0 && IsSpace(s[|s| - 1]) {
      var n := |s| - 1;
      StripRightEmpty(s[..n]);
      assert AllSpace(s) <==> AllSpace(s[..n]) by {
        if AllSpace(s[..n]) {
          forall k | 0 <= k < |s| ensures IsSpace(s[k]) {
            if k < n { assert s[k] == s[..n][k]; }
          }
        }
        if AllSpace(s) {
          forall k | 0 <= k < n ensures IsSpace(s[..n][k]) { assert s[..n][k] == s[k]; }
        }
      }
    }
  }

  predicate StartsWith(s: string, prefix: string) {
    |prefix| <= |s| && s[..|prefix|] == prefix
  }

  predicate EndsWith(s: string, suffix: string) {
    |suffix| <= |s| && s[|s| - |suffix|..] == suffix
  }

  /** `pat` occurs in `s` starting at index `k`. */
  predicate OccursAt(s: string, pat: string, k: nat) {
    k + |pat| <= |s| && s[k..k + |pat|] == pat
  }

  /** Python's `s.find(pat, k)`: the first index at or after `k` where `pat` occurs. */
  function FindFrom(s: string, pat: string, k: nat): (r: Option<nat>)
    requires k <= |s|
    ensures r.Some? ==> k <= r.value && OccursAt(s, pat, r.value)
    ensures r.Some? ==> forall m :: k <= m < r.value ==> !OccursAt(s, pat, m)
    ensures r.None? ==> forall m :: k <= m ==> !OccursAt(s, pat, m)
    decreases |s| - k
  {
    if OccursAt(s, pat, k) then Some(k)
    else if k == |s| then None
    else FindFrom(s, pat, k + 1)
  }

  /** Python's `pat in s`. */
  function Contains(s: string, pat: string): (r: bool)
    ensures r <==> exists m :: OccursAt(s, pat, m)
  {
    FindFrom(s, pat, 0).Some?
  }

  /** Python's `s.replace(c, "")` for a one-character `c`. */
  function Without(s: string, c: char): (r: string)
    ensures c !in r && |r| <= |s|
    ensures forall x :: x in r <==> x in s && x != c
  {
    if s == [] then []
    else if s[0] == c then Without(s[1..], c)
    else [s[0]] + Without(s[1..], c)
  }

  function LowerChar(c: char): char {
    if 'A' <= c <= 'Z' then (c as int - 'A' as int + 'a' as int) as char else c
  }

  /** Python's `s.lower()`, on the ASCII letters. */
  function Lower(s: string): (r: string)
    ensures |r| == |s|
  {
    seq(|s|, k requires 0 <= k < |s| => LowerChar(s[k]))
  }

  /** Lower-casing commutes with taking a slice. */
  lemma LowerSlice(s: string, a: nat, b: nat)
    requires a <= b <= |s|
    ensures Lower(s)[a..b] == Lower(s[a..b])
  {
    forall k | 0 <= k < b - a ensures Lower(s)[a..b][k] == Lower(s[a..b])[k] {
      assert s[a..b][k] == s[a + k];
    }
  }

  /** Python's `sep.join(parts)`. */
  function Join(parts: seq<string>, sep: string): string {
    if parts == [] then []
    else if |parts| == 1 then parts[0]
    else parts[0] + sep + Join(parts[1..], sep)
  }

  /** `re.sub("^" + prefix, "", s)` for a prefix without regex metacharacters. */
  function StripPrefix(s: string, prefix: string): (r: string)
    ensures StartsWith(s, prefix) ==> s == prefix + r
    ensures !StartsWith(s, prefix) ==> r == s
  {
    if StartsWith(s, prefix) then s[|prefix|..] else s
  }

  ghost predicate Distinct<T>(s: seq<T>) {
    forall a, b :: 0 <= a < b < |s| ==> s[a] != s[b]
  }

  /** A sequence with a new first element is distinct exactly when the element is new
      and the rest is distinct. */
  lemma DistinctCons<T>(x: T, rest: seq<T>)
    ensures Distinct([x] + rest) <==> x !in rest && Distinct(rest)
  {
    var s := [x] + rest;
    if x !in rest && Distinct(rest) {
      forall a, b | 0 <= a < b < |s| ensures s[a] != s[b] {
        if a > 0 {
          assert s[a] == rest[a - 1] && s[b] == rest[b - 1];
        } else {
          assert s[b] == rest[b - 1];
        }
      }
    }
    if Distinct(s) {
      forall a, b | 0 <= a < b < |rest| ensures rest[a] != rest[b] {
        assert rest[a] == s[a + 1] && rest[b] == s[b + 1];
      }
      forall k | 0 <= k < |rest| ensures rest[k] != x {
        assert s[0] == x && s[k + 1] == rest[k];
      }
    }
  }

  /** `x` occurs at two different positions of `s`. */
  ghost predicate Repeated<T>(x: T, s: seq<T>) {
    exists a, b :: 0 <= a < b < |s| && s[a] == x && s[b] == x
  }

  /** A repetition in `[y] + rest` is a repetition in `rest`, or `y` found again in `rest`. */
  lemma RepeatedCons<T>(x: T, y: T, rest: seq<T>)
    requires Repeated(x, rest) || (x == y && x in rest)
    ensures Repeated(x, [y] + rest)
  {
    var s := [y] + rest;
    if Repeated(x, rest) {
      var a, b :| 0 <= a < b < |rest| && rest[a] == x && rest[b] == x;
      assert s[a + 1] == x && s[b + 1] == x;
    } else {
      var b :| 0 <= b < |rest| && rest[b] == x;
      assert s[0] == x && s[b + 1] == x;
    }
  }

  // ---- lemmas about Strip

  lemma {:induction false} StripLeftSpaces(ws: string, t: string)
    requires AllSpace(ws)
    ensures StripLeft(ws + t) == StripLeft(t)
    decreases |ws|
  {
    if ws != [] {
      assert (ws + t)[0] == ws[0] && IsSpace(ws[0]);
      assert (ws + t)[1..] == ws[1..] + t;
      assert AllSpace(ws[1..]) by {
        forall k | 0 <= k < |ws| - 1 ensures IsSpace(ws[1..][k]) { assert ws[1..][k] == ws[k + 1]; }
      }
      assert StripLeft(ws + t) == StripLeft(ws[1..] + t);
      StripLeftSpaces(ws[1..], t);
    } else {
      assert ws + t == t;
    }
  }

  lemma {:induction false} StripRightSpaces(t: string, ws: string)
    requires AllSpace(ws)
    ensures StripRight(t + ws) == StripRight(t)
    decreases |ws|
  {
    if ws != [] {
      var n := |ws| - 1;
      assert (t + ws)[|t + ws| - 1] == ws[n] && IsSpace(ws[n]);
      assert (t + ws)[..|t + ws| - 1] == t + ws[..n];
      assert AllSpace(ws[..n]) by {
        forall k | 0 <= k < n ensures IsSpace(ws[..n][k]) { assert ws[..n][k] == ws[k]; }
      }
      assert StripRight(t + ws) == StripRight(t + ws[..n]);
      StripRightSpaces(t, ws[..n]);
    } else {
      assert t + ws == t;
    }
  }

  /** Padding a trimmed string with whitespace on both sides is undone by `strip()`. */
  lemma StripPadded(ws1: string, t: string, ws2: string)
    requires AllSpace(ws1) && AllSpace(ws2) && Trimmed(t)
    ensures Strip(ws1 + t + ws2) == t
  {
    assert ws1 + t + ws2 == ws1 + (t + ws2);
    StripLeftSpaces(ws1, t + ws2);
    if t == [] {
      assert t + ws2 == ws2;
      StripLeftSpaces(ws2, []);
      assert ws2 + [] == ws2;
    } else {
      StripRightSpaces(t, ws2);
    }
  }

  lemma AllSpaceConcat(a: string, b: string)
    requires AllSpace(a) && AllSpace(b)
    ensures AllSpace(a + b)
  {
  }
}
