/** String helpers behind the clipboard text: JavaScript's `String.prototype.trim`,
    the decimal rendering of a phrase number in a template literal, and
    `Array.prototype.join` together with its inverse, splitting on one character. */
module TextUtil {

  /** The characters `trim` removes: the WhiteSpace and LineTerminator code points
      of ECMAScript (TAB, VT, FF, SP, NBSP, ZWNBSP, the Zs separators, LF, CR, LS, PS). */
  predicate IsSpace(c: char) {
    c == '\t' || c == '\n' || c == '\U{0B}' || c == '\U{0C}' || c == '\r' || c == ' '
    || c == '\U{A0}' || c == '\U{1680}' || ('\U{2000}' <= c <= '\U{200A}')
    || c == '\U{2028}' || c == '\U{2029}' || c == '\U{202F}' || c == '\U{205F}'
    || c == '\U{3000}' || c == '\U{FEFF}'
  }

  predicate AllSpace(s: string) {
    forall i | 0 <= i < |s| :: IsSpace(s[i])
  }

  /** Drops the leading white space. */
  function TrimStart(s: string): string {
    if s != [] && IsSpace(s[0]) then TrimStart(s[1..]) else s
  }

  /** TrimStart drops the longest all-white-space prefix of `s`: what it keeps is a
      suffix of `s`, the part cut away is all white space, and a non-empty result
      starts with a non-space. */
  lemma {:induction false} TrimStartSpec(s: string)
    ensures |TrimStart(s)| <= |s| && TrimStart(s) == s[|s| - |TrimStart(s)|..]
    ensures AllSpace(s[..|s| - |TrimStart(s)|])
    ensures TrimStart(s) != [] ==> !IsSpace(TrimStart(s)[0])
  {
    if s != [] && IsSpace(s[0]) {
      TrimStartSpec(s[1..]);
      var k := |s| - |TrimStart(s)|;
      assert s[1..][k - 1..] == s[k..];
      forall i | 0 <= i < k ensures IsSpace(s[..k][i]) {
        if i > 0 { assert s[..k][i] == s[1..][..k - 1][i - 1]; }
      }
    }
  }

  /** Drops the trailing white space. */
  function TrimEnd(s: string): string {
    if s != [] && IsSpace(s[|s| - 1]) then TrimEnd(s[..|s| - 1]) else s
  }

  /** TrimEnd drops the longest all-white-space suffix of `s`: what it keeps is a
      prefix of `s`, the part cut away is all white space, and a non-empty result
      ends with a non-space. */
  lemma {:induction false} TrimEndSpec(s: string)
    ensures |TrimEnd(s)| <= |s| && TrimEnd(s) == s[..|TrimEnd(s)|]
    ensures AllSpace(s[|TrimEnd(s)|..])
    ensures TrimEnd(s) != [] ==> !IsSpace(TrimEnd(s)[|TrimEnd(s)| - 1])
  {
    if s != [] && IsSpace(s[|s| - 1]) {
      var s' := s[..|s| - 1];
      TrimEndSpec(s');
      var k := |TrimEnd(s)|;
      assert s'[..k] == s[..k];
      forall j | 0 <= j < |s| - k ensures IsSpace(s[k..][j]) {
        if k + j < |s| - 1 { assert s[k..][j] == s'[k..][j]; }
      }
    }
  }

  /** `s.trim()`: empty exactly when `s` is all white space; otherwise it starts and
      ends with a non-space character. */
  function Trim(s: string): (r: string)
    ensures |r| <= |s|
    ensures r == [] <==> AllSpace(s)
    ensures r != [] ==> !IsSpace(r[0]) && !IsSpace(r[|r| - 1])
  {
    var t := TrimStart(s);
    TrimStartSpec(s);
    TrimEndSpec(t);
    assert t != [] ==> !AllSpace(t) by {
      if t != [] { assert !IsSpace(t[0]); }
    }
    assert AllSpace(t) ==> AllSpace(s) by {
      if AllSpace(t) {
        assert s == s[..|s| - |t|] + t;
      }
    }
    TrimEnd(t)
  }

  /** Trim keeps a contiguous slice of `s` and removes only white space around it. */
  lemma TrimIsSlice(s: string) returns (lo: nat)
    ensures lo + |Trim(s)| <= |s|
    ensures s[lo..lo + |Trim(s)|] == Trim(s)
    ensures AllSpace(s[..lo]) && AllSpace(s[lo + |Trim(s)|..])
  {
    var t := TrimStart(s);
    var r := TrimEnd(t);
    TrimStartSpec(s);
    TrimEndSpec(t);
    lo := |s| - |t|;
    assert s[lo..] == t;
    assert s[lo..lo + |r|] == t[..|r|];
    assert s[lo + |r|..] == t[|r|..];
  }

  lemma {:induction false} TrimStartOfSpaces(a: string, m: string)
    requires AllSpace(a)
    requires m == [] || !IsSpace(m[0])
    ensures TrimStart(a + m) == m
  {
    if a != [] {
      assert (a + m)[1..] == a[1..] + m;
      assert AllSpace(a[1..]) by {
        forall i | 0 <= i < |a[1..]| ensures IsSpace(a[1..][i]) { assert a[1..][i] == a[i + 1]; }
      }
      TrimStartOfSpaces(a[1..], m);
    } else {
      assert a + m == m;
    }
  }

  lemma {:induction false} TrimEndOfSpaces(m: string, b: string)
    requires AllSpace(b)
    requires m == [] || !IsSpace(m[|m| - 1])
    ensures TrimEnd(m + b) == m
  {
    if b != [] {
      var b' := b[..|b| - 1];
      assert (m + b)[..|m + b| - 1] == m + b';
      assert AllSpace(b') by {
        forall i | 0 <= i < |b'| ensures IsSpace(b'[i]) { assert b'[i] == b[i]; }
      }
      assert IsSpace(b[|b| - 1]);
      TrimEndOfSpaces(m, b');
    } else {
      assert m + b == m;
    }
  }

  /** Trim is characterised uniquely: whenever `s` is white space, then a string that
      does not begin or end with white space, then white space, Trim returns the middle. */
  lemma TrimUnique(a: string, m: string, b: string)
    requires AllSpace(a) && AllSpace(b)
    requires m == [] || (!IsSpace(m[0]) && !IsSpace(m[|m| - 1]))
    ensures Trim(a + m + b) == m
  {
    if m == [] {
      assert a + m + b == a + b;
      assert AllSpace(a + b) by {
        forall i | 0 <= i < |a + b| ensures IsSpace((a + b)[i]) {
          if i < |a| { assert (a + b)[i] == a[i]; } else { assert (a + b)[i] == b[i - |a|]; }
        }
      }
    } else {
      assert a + m + b == a + (m + b);
      TrimStartOfSpaces(a, m + b);
      TrimEndOfSpaces(m, b);
    }
  }

  /** Trimming twice is the same as trimming once. */
  lemma TrimIdempotent(s: string)
    ensures Trim(Trim(s)) == Trim(s)
  {
    TrimOfUnpadded(Trim(s));
  }

  /** A string with no white space at either end is its own trim. */
  lemma TrimOfUnpadded(m: string)
    requires m == [] || (!IsSpace(m[0]) && !IsSpace(m[|m| - 1]))
    ensures Trim(m) == m
  {
    var e: string := [];
    assert AllSpace(e);
    assert e + m + e == m;
    TrimUnique(e, m, e);
  }

  /** Trim never introduces a character that was not in its argument. */
  lemma TrimKeepsCharacters(s: string, c: char)
    requires c in Trim(s)
    ensures c in s
  {
    var lo := TrimIsSlice(s);
    var i :| 0 <= i < |Trim(s)| && Trim(s)[i] == c;
    assert s[lo + i] == c;
  }

  /* ---------------- decimal numbers ---------------- */

  predicate IsDigit(c: char) {
    '0' <= c <= '9'
  }

  function DigitChar(d: nat): (c: char)
    requires d < 10
  {
    (48 + d) as char
  }

  function DigitValue(c: char): nat
    requires IsDigit(c)
  {
    c as int - 48
  }

  predicate AllDigits(s: string) {
    forall i | 0 <= i < |s| :: IsDigit(s[i])
  }

  /** The decimal rendering of `n` as a template literal produces it: at least one
      digit, only digits, and no leading zero unless `n` is zero. */
  function NatToString(n: nat): (r: string)
    ensures |r| >= 1 && AllDigits(r)
    ensures r[0] == '0' ==> n == 0
  {
    if n < 10 then [DigitChar(n)] else NatToString(n / 10) + [DigitChar(n % 10)]
  }

  /** Reads a string of decimal digits back to its value. */
  function ParseDecimal(s: string): nat
    requires AllDigits(s)
  {
    if s == [] then 0 else ParseDecimal(s[..|s| - 1]) * 10 + DigitValue(s[|s| - 1])
  }

  /** Parsing the rendering of `n` gives `n` back. */
  lemma {:induction false} ParseNatToString(n: nat)
    ensures ParseDecimal(NatToString(n)) == n
  {
    var r := NatToString(n);
    if n >= 10 {
      ParseNatToString(n / 10);
      assert r[..|r| - 1] == NatToString(n / 10);
    } else {
      assert r[..|r| - 1] == [];
    }
  }

  /** Different numbers are rendered differently. */
  lemma NatToStringInjective(m: nat, n: nat)
    requires NatToString(m) == NatToString(n)
    ensures m == n
  {
    ParseNatToString(m);
    ParseNatToString(n);
  }

  /* ---------------- join and split ---------------- */

  /** `xs.join(sep)`: the empty list gives "", one element gives itself, and otherwise
      consecutive elements are separated by `sep`. */
  function JoinWith(sep: string, xs: seq<string>): string {
    if |xs| == 0 then ""
    else if |xs| == 1 then xs[0]
    else xs[0] + sep + JoinWith(sep, xs[1..])
  }

  /** With a non-empty separator, the join is empty exactly when there is nothing to
      join or the only element is empty. */
  lemma JoinWithEmpty(sep: string, xs: seq<string>)
    requires sep != []
    ensures JoinWith(sep, xs) == [] <==> |xs| == 0 || (|xs| == 1 && xs[0] == [])
  {
  }

  /** Joining a concatenation puts one separator where the two parts meet. */
  lemma {:induction false} JoinWithAppend(sep: string, a: seq<string>, b: seq<string>)
    requires |a| > 0 && |b| > 0
    ensures JoinWith(sep, a + b) == JoinWith(sep, a) + sep + JoinWith(sep, b)
  {
    if |a| == 1 {
      assert (a + b)[1..] == b;
    } else {
      assert (a + b)[1..] == a[1..] + b;
      JoinWithAppend(sep, a[1..], b);
    }
  }

  /** Cutting `s` at every occurrence of the character `d`: the inverse of joining
      with `[d]` (see SplitJoin), used to read the clipboard text back as lines.
      There is always at least one piece, and no piece contains the delimiter. */
  function Split(s: string, d: char): (r: seq<string>)
    ensures |r| >= 1
    ensures forall k | 0 <= k < |r| :: d !in r[k]
  {
    if s == [] then [""]
    else if s[0] == d then [""] + Split(s[1..], d)
    else
      var rest := Split(s[1..], d);
      [[s[0]] + rest[0]] + rest[1..]
  }

  lemma {:induction false} SplitNoDelimiter(a: string, d: char)
    requires d !in a
    ensures Split(a, d) == [a]
  {
    if a != [] {
      SplitNoDelimiter(a[1..], d);
      assert [a[0]] + a[1..] == a;
    }
  }

  lemma {:induction false} SplitAtDelimiter(a: string, d: char, rest: string)
    requires d !in a
    ensures Split(a + [d] + rest, d) == [a] + Split(rest, d)
  {
    if a == [] {
      assert a + [d] + rest == [d] + rest;
      assert ([d] + rest)[1..] == rest;
    } else {
      var s := a + [d] + rest;
      assert s[0] == a[0];
      assert s[1..] == a[1..] + [d] + rest;
      SplitAtDelimiter(a[1..], d, rest);
      assert [a[0]] + a[1..] == a;
    }
  }

  /** Splitting a join on the separator character gives back the joined pieces,
      when none of them contains that character. */
  lemma {:induction false} SplitJoin(xs: seq<string>, d: char)
    requires |xs| >= 1
    requires forall k | 0 <= k < |xs| :: d !in xs[k]
    ensures Split(JoinWith([d], xs), d) == xs
  {
    if |xs| == 1 {
      SplitNoDelimiter(xs[0], d);
    } else {
      SplitJoin(xs[1..], d);
      SplitAtDelimiter(xs[0], d, JoinWith([d], xs[1..]));
      assert [xs[0]] + xs[1..] == xs;
    }
  }
}
