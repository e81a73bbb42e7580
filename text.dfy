/** A stock Option type, used for the optional error field of a query result
    and for the matches of the date scanner. */
module Maybe {
  datatype Option<+T> = None | Some(value: T)
}

/** The Python string operations the agent relies on, on `string` = `seq<char>`:
    `str.strip`, `str.lower` (ASCII letters), `in` on strings, `str.split` on one
    character, `str.join`, `str.replace(pat, "")`, slicing `s[:n]` and `str(n)`. */
module Text {

  /** Python's `str.isspace()`: the characters `str.strip()` removes and `\s` matches. */
  predicate IsSpace(c: char) {
    c == ' ' || ('\t' <= c <= '\r') || ('\U{1c}' <= c <= '\U{1f}')
    || c == '\U{85}' || c == '\U{a0}' || c == '\U{1680}'
    || ('\U{2000}' <= c <= '\U{200a}') || c == '\U{2028}' || c == '\U{2029}'
    || c == '\U{202f}' || c == '\U{205f}' || c == '\U{3000}'
  }

  /** Every character is whitespace, stated one character at a time. */
  predicate AllSpace(s: string) {
    s == [] || (IsSpace(s[0]) && AllSpace(s[1..]))
  }

  lemma {:induction false} AllSpaceAt(s: string, k: nat)
    requires AllSpace(s) && k < |s|
    ensures IsSpace(s[k])
  {
    if k > 0 {
      AllSpaceAt(s[1..], k - 1);
    }
  }

  lemma {:induction false} AllSpaceOfEach(s: string)
    requires forall k :: 0 <= k < |s| ==> IsSpace(s[k])
    ensures AllSpace(s)
  {
    if s != [] {
      AllSpaceOfEach(s[1..]);
    }
  }

  lemma {:induction false} AllSpaceSnoc(s: string, c: char)
    requires AllSpace(s) && IsSpace(c)
    ensures AllSpace(s + [c])
  {
    if s == [] {
      assert ([] + [c])[1..] == [];
    } else {
      assert (s + [c])[1..] == s[1..] + [c];
      AllSpaceSnoc(s[1..], c);
    }
  }

  /** Neither starts nor ends with whitespace: what `str.strip()` returns. */
  predicate IsTrimmed(s: string) {
    s == [] || (!IsSpace(s[0]) && !IsSpace(s[|s| - 1]))
  }

  /** The first index at or after `i` whose character is not whitespace. */
  function SpaceEnd(s: string, i: nat): (j: nat)
    requires i <= |s|
    ensures i <= j <= |s|
    ensures AllSpace(s[i..j])
    ensures j < |s| ==> !IsSpace(s[j])
    decreases |s| - i
  {
    if i < |s| && IsSpace(s[i]) then
      var j := SpaceEnd(s, i + 1);
      assert s[i..j][1..] == s[i + 1..j];
      j
    else i
  }

  /** The least index `k`, between `i` and `j`, from which `s[k..j]` is all whitespace. */
  function SpaceStart(s: string, i: nat, j: nat): (k: nat)
    requires i <= j <= |s|
    ensures i <= k <= j
    ensures AllSpace(s[k..j])
    ensures k > i ==> !IsSpace(s[k - 1])
    decreases j
  {
    if j > i && IsSpace(s[j - 1]) then
      var k := SpaceStart(s, i, j - 1);
      assert s[k..j] == s[k..j - 1] + [s[j - 1]];
      AllSpaceSnoc(s[k..j - 1], s[j - 1]);
      k
    else j
  }

  /** `str.strip()`: what lies between the leading and the trailing whitespace. */
  function Strip(s: string): (r: string)
    ensures IsTrimmed(r) && |r| <= |s|
    ensures IsTrimmed(s) ==> r == s
  {
    var i := SpaceEnd(s, 0);
    var j := SpaceStart(s, i, |s|);
    assert IsTrimmed(s) && s != [] ==> i == 0 && j == |s|;
    s[i..j]
  }

  lemma {:induction false} SpaceEndAt(s: string, i: nat, k: nat)
    requires i <= k <= |s|
    requires forall m :: i <= m < k ==> IsSpace(s[m])
    requires k < |s| ==> !IsSpace(s[k])
    ensures SpaceEnd(s, i) == k
    decreases k - i
  {
    if i < k {
      SpaceEndAt(s, i + 1, k);
    }
  }

  lemma {:induction false} SpaceStartAt(s: string, i: nat, j: nat, k: nat)
    requires i <= k <= j <= |s|
    requires forall m :: k <= m < j ==> IsSpace(s[m])
    requires k > i ==> !IsSpace(s[k - 1])
    ensures SpaceStart(s, i, j) == k
    decreases j - k
  {
    if k < j {
      SpaceStartAt(s, i, j - 1, k);
    }
  }

  lemma {:induction false} AllSpaceAppend(a: string, b: string)
    requires AllSpace(a) && AllSpace(b)
    ensures AllSpace(a + b)
  {
    if a == [] {
      assert a + b == b;
    } else {
      assert (a + b)[1..] == a[1..] + b;
      AllSpaceAppend(a[1..], b);
    }
  }

  /** A leading run of whitespace followed by a non-space ends where the run ends. */
  lemma {:induction false} SpaceEndSkips(w: string, rest: string)
    requires AllSpace(w) && (rest == [] || !IsSpace(rest[0]))
    ensures SpaceEnd(w + rest, 0) == |w|
  {
    var x := w + rest;
    forall m | 0 <= m < |w| ensures IsSpace(x[m]) {
      AllSpaceAt(w, m);
    }
    assert |w| < |x| ==> x[|w|] == rest[0];
    SpaceEndAt(x, 0, |w|);
  }

  /** Text made of whitespace only strips to nothing. */
  lemma {:induction false} StripAllSpace(x: string)
    requires AllSpace(x)
    ensures Strip(x) == []
  {
    SpaceEndSkips(x, []);
    assert x + [] == x;
  }

  /** Whitespace around a trimmed text is exactly what `strip()` removes. */
  lemma {:induction false} StripPadded(w1: string, t: string, w2: string)
    requires AllSpace(w1) && AllSpace(w2) && IsTrimmed(t)
    ensures Strip(w1 + t + w2) == t
  {
    if t == [] {
      assert w1 + t + w2 == w1 + w2;
      AllSpaceAppend(w1, w2);
      StripAllSpace(w1 + w2);
    } else {
      StripAround(w1, t, w2);
    }
  }

  lemma {:induction false} StripAround(w1: string, t: string, w2: string)
    requires AllSpace(w1) && AllSpace(w2) && IsTrimmed(t) && t != []
    ensures Strip(w1 + t + w2) == t
  {
    var x := w1 + t + w2;
    var i, j := |w1|, |w1| + |t|;
    forall m | 0 <= m < i ensures IsSpace(x[m]) {
      AllSpaceAt(w1, m);
    }
    forall m | j <= m < |x| ensures IsSpace(x[m]) {
      AllSpaceAt(w2, m - j);
    }
    assert x[i] == t[0] && x[j - 1] == t[|t| - 1];
    SpaceEndAt(x, 0, i);
    SpaceStartAt(x, i, |x|, j);
    assert x[i..j] == t;
  }

  lemma StripIdempotent(s: string)
    ensures Strip(Strip(s)) == Strip(s)
  {
  }

  function LowerChar(c: char): (r: char)
    ensures 'A' <= c <= 'Z' ==> 'a' <= r <= 'z'
    ensures !('A' <= c <= 'Z') ==> r == c
  {
    if 'A' <= c <= 'Z' then (c as int + 32) as char else c
  }

  /** `str.lower()` on the ASCII letters; every other character is kept. */
  function Lower(s: string): (r: string)
    ensures |r| == |s|
  {
    if s == [] then [] else [LowerChar(s[0])] + Lower(s[1..])
  }

  /** Each character is lowered on its own. */
  lemma {:induction false} LowerAt(s: string)
    ensures forall k :: 0 <= k < |s| ==> Lower(s)[k] == LowerChar(s[k])
  {
    if s != [] {
      LowerAt(s[1..]);
    }
  }

  /** Lowering a prefix gives the prefix of the lowered text. */
  lemma LowerPrefix(x: string, k: nat)
    requires k <= |x|
    ensures Lower(x[..k]) == Lower(x)[..k]
  {
    LowerAt(x);
    LowerAt(x[..k]);
    assert forall t :: 0 <= t < k ==> Lower(x[..k])[t] == Lower(x)[t];
  }

  /** Python's `sub in s` for strings: `sub` starts at the head of `s` or
      somewhere in its tail. */
  predicate Contains(s: string, sub: string)
    decreases |s|
  {
    sub <= s || (s != [] && Contains(s[1..], sub))
  }

  /** An occurrence at any index is an occurrence. */
  lemma {:induction false} ContainsAt(s: string, sub: string, i: nat)
    requires i <= |s| && sub <= s[i..]
    ensures Contains(s, sub)
    decreases i
  {
    if i == 0 {
      assert s[0..] == s;
    } else {
      assert s[1..][i - 1..] == s[i..];
      ContainsAt(s[1..], sub, i - 1);
    }
  }

  /** An occurrence is found at some index. */
  lemma {:induction false} ContainsWitness(s: string, sub: string) returns (i: nat)
    requires Contains(s, sub)
    ensures i <= |s| && sub <= s[i..]
    decreases |s|
  {
    if sub <= s {
      i := 0;
      assert s[0..] == s;
    } else {
      var j := ContainsWitness(s[1..], sub);
      i := j + 1;
      assert s[1..][j..] == s[i..];
    }
  }

  /** A character that is not whitespace lies outside every run of whitespace. */
  lemma {:induction false} SpaceFreeAt(s: string, a: nat, b: nat, k: nat)
    requires a <= b <= |s| && AllSpace(s[a..b])
    requires k < |s| && !IsSpace(s[k])
    ensures k < a || b <= k
    decreases b - a
  {
    if a < b {
      assert s[a..b][1..] == s[a + 1..b];
      SpaceFreeAt(s, a + 1, b, k);
    }
  }

  /** An occurrence inside `s[i..j]` is an occurrence in that slice. */
  lemma {:induction false} ContainsInSlice(s: string, sub: string, p: nat, i: nat, j: nat)
    requires i <= p && p + |sub| <= j <= |s| && sub <= s[p..]
    ensures Contains(s[i..j], sub)
  {
    assert s[i..j][p - i..][..|sub|] == s[p..][..|sub|];
    ContainsAt(s[i..j], sub, p - i);
  }

  /** `strip()` removes whitespace only, so it keeps every occurrence of a
      text that neither starts nor ends with whitespace. */
  lemma {:induction false} StripKeeps(s: string, sub: string)
    requires sub != [] && IsTrimmed(sub)
    requires Contains(s, sub)
    ensures Contains(Strip(s), sub)
  {
    var p := ContainsWitness(s, sub);
    var i := SpaceEnd(s, 0);
    var j := SpaceStart(s, i, |s|);
    var q := p + |sub| - 1;
    assert s[p] == sub[0] && s[q] == sub[|sub| - 1];
    SpaceFreeAt(s, 0, i, p);
    SpaceFreeAt(s, j, |s|, q);
    ContainsInSlice(s, sub, p, i, j);
  }

  /** `str.endswith`. */
  predicate EndsWith(s: string, suffix: string) {
    |suffix| <= |s| && s[|s| - |suffix|..] == suffix
  }

  /** `s[:n]` for a non-negative `n`. */
  function Prefix(s: string, n: nat): (r: string)
    ensures |r| <= n && r <= s
    ensures |s| <= n ==> r == s
    ensures |s| > n ==> r == s[..n]
  {
    if |s| <= n then s else s[..n]
  }

  /** `sep.join(parts)`. */
  function Join(parts: seq<string>, sep: string): string {
    if parts == [] then []
    else if |parts| == 1 then parts[0]
    else parts[0] + sep + Join(parts[1..], sep)
  }

  /** `s.split(sep)` for a one-character separator: never empty, and `split("")` is `[""]`. */
  function Split(s: string, sep: char): (r: seq<string>)
    ensures |r| >= 1
    decreases |s|
  {
    if s == [] then [[]]
    else
      var rest := Split(s[1..], sep);
      if s[0] == sep then [[]] + rest
      else [[s[0]] + rest[0]] + rest[1..]
  }

  /** Joining the pieces of a split with the separator gives the text back. */
  lemma {:induction false} JoinSplit(s: string, sep: char)
    ensures Join(Split(s, sep), [sep]) == s
    decreases |s|
  {
    if s != [] {
      var rest := Split(s[1..], sep);
      JoinSplit(s[1..], sep);
      if s[0] == sep {
        assert ([[]] + rest)[1..] == rest;
        assert Join(Split(s, sep), [sep]) == [sep] + Join(rest, [sep]);
      } else {
        var r := [[s[0]] + rest[0]] + rest[1..];
        assert Split(s, sep) == r;
        if |rest| == 1 {
          assert Join(r, [sep]) == [s[0]] + Join(rest, [sep]);
        } else {
          assert r[1..] == rest[1..];
          calc {
            Join(r, [sep]);
            ([s[0]] + rest[0]) + [sep] + Join(rest[1..], [sep]);
            [s[0]] + (rest[0] + [sep] + Join(rest[1..], [sep]));
            [s[0]] + Join(rest, [sep]);
          }
        }
      }
      assert [s[0]] + s[1..] == s;
    }
  }

  lemma {:induction false} SplitWithout(a: string, sep: char)
    requires sep !in a
    ensures Split(a, sep) == [a]
    decreases |a|
  {
    if a != [] {
      SplitWithout(a[1..], sep);
      assert [a[0]] + a[1..] == a;
    }
  }

  lemma {:induction false} SplitAfter(a: string, sep: char, rest: string)
    requires sep !in a
    ensures Split(a + [sep] + rest, sep) == [a] + Split(rest, sep)
    decreases |a|
  {
    if a == [] {
      assert a + [sep] + rest == [sep] + rest;
      assert ([sep] + rest)[1..] == rest;
    } else {
      assert (a + [sep] + rest)[1..] == a[1..] + [sep] + rest;
      SplitAfter(a[1..], sep, rest);
      assert [a[0]] + a[1..] == a;
    }
  }

  /** Splitting the join of separator-free pieces gives the pieces back. */
  lemma {:induction false} SplitJoin(parts: seq<string>, sep: char)
    requires |parts| >= 1
    requires forall k :: 0 <= k < |parts| ==> sep !in parts[k]
    ensures Split(Join(parts, [sep]), sep) == parts
  {
    if |parts| == 1 {
      SplitWithout(parts[0], sep);
    } else {
      SplitJoin(parts[1..], sep);
      SplitAfter(parts[0], sep, Join(parts[1..], [sep]));
      assert [parts[0]] + parts[1..] == parts;
    }
  }

  /** `s.replace(pat, "")`: every occurrence of `pat`, scanned left to right, removed. */
  function RemoveAll(s: string, pat: string): (r: string)
    requires pat != []
    ensures |r| <= |s|
    decreases |s|
  {
    if s == [] then []
    else if pat <= s then RemoveAll(s[|pat|..], pat)
    else [s[0]] + RemoveAll(s[1..], pat)
  }

  /** A text in which `pat` does not occur comes back from `replace(pat, "")` unchanged. */
  lemma {:induction false} RemoveAllAbsent(s: string, pat: string)
    requires pat != [] && !Contains(s, pat)
    ensures RemoveAll(s, pat) == s
    decreases |s|
  {
    if s != [] {
      RemoveAllAbsent(s[1..], pat);
    }
  }

  /** `s.replace(c, "")` for one character keeps every other character and
      only those. */
  lemma {:induction false} RemoveCharKeeps(s: string, c: char)
    ensures forall x :: x in RemoveAll(s, [c]) <==> x in s && x != c
    decreases |s|
  {
    if s != [] {
      RemoveCharKeeps(s[1..], c);
      assert [c] <= s <==> s[0] == c;
      assert forall x :: x in s <==> x == s[0] || x in s[1..];
    }
  }

  /** A text holding `sub` holds the first character of `sub`. */
  lemma {:induction false} ContainsHead(s: string, sub: string)
    requires sub != [] && Contains(s, sub)
    ensures sub[0] in s
    decreases |s|
  {
    if !(sub <= s) {
      ContainsHead(s[1..], sub);
    }
  }

  /** When `pat` does not occur in `b` and its first character does not
      recur in it, `pat` cannot straddle the end of `b`, so
      `(b + pat).replace(pat, "")` gives `b` back. */
  lemma {:induction false} RemoveAllAppended(b: string, pat: string)
    requires pat != [] && !Contains(b, pat)
    requires forall k :: 0 < k < |pat| ==> pat[k] != pat[0]
    ensures RemoveAll(b + pat, pat) == b
    decreases |b|
  {
    if b == [] {
      assert b + pat == pat;
      assert pat[|pat|..] == [];
    } else {
      if |b| >= |pat| {
        assert (b + pat)[..|pat|] == b[..|pat|];
      } else {
        assert (b + pat)[|b|] == pat[0] != pat[|b|];
      }
      assert (b + pat)[1..] == b[1..] + pat;
      RemoveAllAppended(b[1..], pat);
    }
  }

  function DigitChar(d: nat): (c: char)
    requires d < 10
    ensures '0' <= c <= '9'
  {
    ('0' as int + d) as char
  }

  predicate IsDigit(c: char) {
    '0' <= c <= '9'
  }

  /** `str(n)` for a natural number: its decimal digits. */
  function NatToString(n: nat): (r: string)
    ensures r != [] && forall k :: 0 <= k < |r| ==> IsDigit(r[k])
  {
    if n < 10 then [DigitChar(n)] else NatToString(n / 10) + [DigitChar(n % 10)]
  }

  /** The value of a string of decimal digits. */
  function DigitsValue(s: string): nat
    requires forall k :: 0 <= k < |s| ==> IsDigit(s[k])
  {
    if s == [] then 0
    else
      assert IsDigit(s[|s| - 1]);
      DigitsValue(s[..|s| - 1]) * 10 + (s[|s| - 1] as int - '0' as int)
  }

  /** Reading back the digits of `str(n)` gives `n`: so `str` is injective. */
  lemma {:induction false} NatToStringRoundTrip(n: nat)
    ensures DigitsValue(NatToString(n)) == n
  {
    if n >= 10 {
      var s := NatToString(n);
      NatToStringRoundTrip(n / 10);
      assert s[..|s| - 1] == NatToString(n / 10);
    }
  }

  lemma NatToStringInjective(a: nat, b: nat)
    requires NatToString(a) == NatToString(b)
    ensures a == b
  {
    NatToStringRoundTrip(a);
    NatToStringRoundTrip(b);
  }
}
