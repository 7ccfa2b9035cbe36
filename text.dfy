/**
 * String primitives of JavaScript that the webhook relies on: the `\s`
 * character class (which is also what `String.prototype.trim` strips),
 * `trim`, `split` on one character, `Array.prototype.join`, and the
 * decimal rendering of an integer in a template literal.
 */
module Text {

  /** ECMAScript WhiteSpace and LineTerminator code points: the `\s` class and the set `trim` removes. */
  predicate IsSpace(c: char) {
    c == '\t' || c == '\n' || c == '\U{000B}' || c == '\U{000C}' || c == '\r' || c == ' ' ||
    c == '\U{00A0}' || c == '\U{1680}' || ('\U{2000}' <= c <= '\U{200A}') ||
    c == '\U{2028}' || c == '\U{2029}' || c == '\U{202F}' || c == '\U{205F}' ||
    c == '\U{3000}' || c == '\U{FEFF}'
  }

  predicate AllSpace(s: string) {
    forall i :: 0 <= i < |s| ==> IsSpace(s[i])
  }

  /** `s.startsWith(p)`. */
  predicate StartsWith(s: string, p: string) {
    |p| <= |s| && s[..|p|] == p
  }

  /** `s.endsWith(p)`. */
  predicate EndsWith(s: string, p: string) {
    |p| <= |s| && s[|s| - |p|..] == p
  }

  /** Removes every leading whitespace character (`s.trimStart()`, or the `\s*` of a regex anchored at the start). */
  function TrimStart(s: string): (r: string)
    ensures |r| <= |s| && r == s[|s| - |r|..]
    ensures AllSpace(s[..|s| - |r|])
    ensures r == [] || !IsSpace(r[0])
  {
    if |s| > 0 && IsSpace(s[0]) then
      var r := TrimStart(s[1..]);
      assert s[..|s| - |r|] == [s[0]] + s[1..][..|s| - 1 - |r|];
      r
    else s
  }

  /** Removes every trailing whitespace character (`s.trimEnd()`). */
  function TrimEnd(s: string): (r: string)
    ensures |r| <= |s| && r == s[..|r|]
    ensures AllSpace(s[|r|..])
    ensures r == [] || !IsSpace(r[|r| - 1])
  {
    if |s| > 0 && IsSpace(s[|s| - 1]) then
      var r := TrimEnd(s[..|s| - 1]);
      assert s[|r|..] == s[..|s| - 1][|r|..] + [s[|s| - 1]];
      r
    else s
  }

  /** `s.trim()`. */
  function Trim(s: string): (r: string)
    ensures r == [] || (!IsSpace(r[0]) && !IsSpace(r[|r| - 1]))
  {
    var t := TrimStart(s);
    var r := TrimEnd(t);
    assert r != [] ==> r[0] == t[0];
    r
  }

  /** Slicing a suffix of `s` is slicing `s` itself, shifted. */
  lemma SuffixSlices(s: string, t: string, i: nat, n: nat)
    requires i <= |s| && t == s[i..] && n <= |t|
    ensures t[..n] == s[i..i + n] && t[n..] == s[i + n..]
  {
  }

  /** Trim keeps a contiguous piece of its input and only strips whitespace around it. */
  lemma TrimSlice(s: string) returns (i: nat)
    ensures i + |Trim(s)| <= |s|
    ensures Trim(s) == s[i..i + |Trim(s)|]
    ensures AllSpace(s[..i]) && AllSpace(s[i + |Trim(s)|..])
  {
    var t := TrimStart(s);
    var r := TrimEnd(t);
    i := |s| - |t|;
    SuffixSlices(s, t, i, |r|);
  }

  lemma TrimStartKeeps(s: string)
    requires s == [] || !IsSpace(s[0])
    ensures TrimStart(s) == s
  {
  }

  lemma TrimEndKeeps(s: string)
    requires s == [] || !IsSpace(s[|s| - 1])
    ensures TrimEnd(s) == s
  {
  }

  /** A string is its own trim exactly when it is empty or starts and ends with a non-space. */
  lemma TrimFixedPoint(s: string)
    ensures Trim(s) == s <==> (s == [] || (!IsSpace(s[0]) && !IsSpace(s[|s| - 1])))
  {
    if s == [] || (!IsSpace(s[0]) && !IsSpace(s[|s| - 1])) {
      TrimStartKeeps(s);
      TrimEndKeeps(s);
    }
  }

  lemma TrimIdempotent(s: string)
    ensures Trim(Trim(s)) == Trim(s)
  {
    TrimFixedPoint(Trim(s));
  }

  /** A character that is not in `s` is not in its trim either. */
  lemma TrimKeepsAbsence(s: string, c: char)
    requires c !in s
    ensures c !in Trim(s)
  {
    var i := TrimSlice(s);
  }

  /** `s.split(c)` for a one-character separator: always at least one piece, none containing `c`. */
  function Split(s: string, c: char): (r: seq<string>)
    ensures |r| >= 1
    ensures forall k :: 0 <= k < |r| ==> c !in r[k]
  {
    if |s| == 0 then [""]
    else
      var rest := Split(s[1..], c);
      if s[0] == c then [""] + rest
      else [[s[0]] + rest[0]] + rest[1..]
  }

  /** `xs.join(sep)`; the empty array joins to the empty string. */
  function Join(xs: seq<string>, sep: string): string {
    if |xs| == 0 then ""
    else if |xs| == 1 then xs[0]
    else xs[0] + sep + Join(xs[1..], sep)
  }

  /** Joining the pieces of a split with the separator gives the original text back. */
  lemma {:induction false} SplitJoin(s: string, c: char)
    ensures Join(Split(s, c), [c]) == s
  {
    if |s| > 0 {
      var rest := Split(s[1..], c);
      SplitJoin(s[1..], c);
      if s[0] == c {
        if |rest| == 1 {
          assert Join([""] + rest, [c]) == "" + [c] + rest[0];
        } else {
          assert ([""] + rest)[1..] == rest;
        }
      } else {
        var r := [[s[0]] + rest[0]] + rest[1..];
        if |rest| == 1 {
          assert r == [[s[0]] + rest[0]];
        } else {
          assert r[1..] == rest[1..];
          assert Join(rest, [c]) == rest[0] + [c] + Join(rest[1..], [c]);
        }
      }
    }
  }

  lemma {:induction false} SplitNoSepPrefix(a: string, rest: string, c: char)
    requires c !in a
    ensures Split(a + rest, c) == [a + Split(rest, c)[0]] + Split(rest, c)[1..]
  {
    if |a| > 0 {
      assert (a + rest)[1..] == a[1..] + rest;
      SplitNoSepPrefix(a[1..], rest, c);
      assert [a[0]] + (a[1..] + Split(rest, c)[0]) == a + Split(rest, c)[0];
    } else {
      var r := Split(rest, c);
      assert a + rest == rest && a + r[0] == r[0];
      assert [r[0]] + r[1..] == r;
    }
  }

  /** Splitting a join of separator-free pieces gives the pieces back. */
  lemma {:induction false} JoinSplit(xs: seq<string>, c: char)
    requires |xs| >= 1
    requires forall k :: 0 <= k < |xs| ==> c !in xs[k]
    ensures Split(Join(xs, [c]), c) == xs
  {
    if |xs| == 1 {
      SplitNoSepPrefix(xs[0], "", c);
      assert xs[0] + "" == xs[0];
    } else {
      var tail := Join(xs[1..], [c]);
      JoinSplit(xs[1..], c);
      assert ([c] + tail)[1..] == tail;
      assert Split([c] + tail, c) == [""] + xs[1..];
      assert Join(xs, [c]) == xs[0] + ([c] + tail);
      SplitNoSepPrefix(xs[0], [c] + tail, c);
      assert xs[0] + "" == xs[0];
    }
  }

  function Digit(d: nat): (c: char)
    requires d < 10
    ensures '0' <= c <= '9'
    ensures c as int - '0' as int == d
    ensures c == '0' <==> d == 0
  {
    "0123456789"[d]
  }

  predicate IsDigits(s: string) {
    |s| >= 1 && forall i :: 0 <= i < |s| ==> '0' <= s[i] <= '9'
  }

  /** Decimal rendering of a natural number, as `${n}` in a template literal. */
  function NatToString(n: nat): (r: string)
    ensures IsDigits(r)
    ensures r[0] == '0' ==> n == 0
  {
    if n < 10 then [Digit(n)] else NatToString(n / 10) + [Digit(n % 10)]
  }

  /** Decimal rendering of an integer, with a leading `-` when negative. */
  function IntToString(n: int): (r: string)
    ensures r != [] && '\n' !in r
  {
    if n < 0 then "-" + NatToString(-n) else NatToString(n)
  }

  /** The value of a decimal digit string: the inverse of `NatToString`. */
  function DigitsValue(s: string): nat
    requires IsDigits(s)
  {
    if |s| == 1 then (s[0] as int - '0' as int) as nat
    else 10 * DigitsValue(s[..|s| - 1]) + (s[|s| - 1] as int - '0' as int) as nat
  }

  lemma {:induction false} NatToStringRoundTrip(n: nat)
    ensures DigitsValue(NatToString(n)) == n
  {
    if n >= 10 {
      NatToStringRoundTrip(n / 10);
      var s := NatToString(n);
      assert s[..|s| - 1] == NatToString(n / 10);
    }
  }

  /** A join of pieces without `c`, with a separator without `c`, has no `c`. */
  lemma {:induction false} JoinAvoids(xs: seq<string>, sep: string, c: char)
    requires forall k :: 0 <= k < |xs| ==> c !in xs[k]
    requires c !in sep
    ensures c !in Join(xs, sep)
  {
    if |xs| > 1 {
      JoinAvoids(xs[1..], sep, c);
    }
  }

  /** `TrimEnd` is determined by its contract: a prefix followed only by whitespace, not itself ending in whitespace. */
  lemma TrimEndUnique(s: string, n: nat)
    requires n <= |s| && AllSpace(s[n..])
    requires n == 0 || !IsSpace(s[n - 1])
    ensures TrimEnd(s) == s[..n]
  {
  }

  /** Dropping a prefix of the kept part commutes with `TrimEnd`. */
  lemma TrimEndDrop(s: string, i: nat)
    requires i <= |TrimEnd(s)|
    ensures TrimEnd(s[i..]) == TrimEnd(s)[i..]
  {
    var n := |TrimEnd(s)|;
    assert s[i..][n - i..] == s[n..];
    if n - i > 0 {
      assert s[i..][n - i - 1] == TrimEnd(s)[n - 1];
    }
    TrimEndUnique(s[i..], n - i);
  }

  /** Dropping the first character and then the whitespace after it leaves a suffix that starts with a non-space. */
  lemma DropThenTrimStart(l: string)
    requires |l| > 0
    ensures var r := TrimStart(l[1..]);
      |r| < |l| && r == l[|l| - |r|..] && AllSpace(l[1..|l| - |r|]) && (r == [] || !IsSpace(r[0]))
  {
    var r := TrimStart(l[1..]);
    var m := |l| - 1 - |r|;
    assert l[1..][m..] == l[|l| - |r|..];
    assert l[1..][..m] == l[1..|l| - |r|];
  }
}
