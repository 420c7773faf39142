/** Character classes and string helpers with JavaScript's meaning:
    `IsSpace` is the regular-expression class `\s` (which is also the set
    that `String.prototype.trim` strips), `IsLineTerminator` the characters
    a regular-expression `.` does not match, and `NatToString` the decimal
    rendering of `Number.prototype.toString()` for non-negative integers. */
module Text {

  /** JavaScript `\s`: the ASCII controls TAB..CR, SPACE, NBSP and the
      Unicode space separators, line/paragraph separators and BOM. */
  predicate IsSpace(c: char) {
    var n := c as int;
    (0x09 <= n <= 0x0D) || n == 0x20 || n == 0xA0 || n == 0x1680
    || (0x2000 <= n <= 0x200A) || n == 0x2028 || n == 0x2029
    || n == 0x202F || n == 0x205F || n == 0x3000 || n == 0xFEFF
  }

  /** The characters a regular-expression `.` does not match. */
  predicate IsLineTerminator(c: char) {
    c == '\n' || c == '\r' || c as int == 0x2028 || c as int == 0x2029
  }

  predicate IsAsciiLower(c: char) { 'a' <= c <= 'z' }
  predicate IsAsciiUpper(c: char) { 'A' <= c <= 'Z' }
  predicate IsDigit(c: char) { '0' <= c <= '9' }

  /** No character of `s` is whitespace. */
  predicate NoSpace(s: string) {
    forall i :: 0 <= i < |s| ==> !IsSpace(s[i])
  }

  /** `s` matches `/^\s*$/`: empty or whitespace only. */
  predicate IsBlank(s: string) {
    forall i :: 0 <= i < |s| ==> IsSpace(s[i])
  }

  /** `s` does not contain the character `c`. */
  predicate Lacks(s: string, c: char) {
    forall i :: 0 <= i < |s| ==> s[i] != c
  }

  /** `k` occurs in `t` as a contiguous substring (JavaScript `t.includes(k)`). */
  predicate IsInfix(k: string, t: string) {
    exists i :: 0 <= i <= |t| - |k| && OccursAt(k, t, i)
  }

  /** `k` occurs in `t` starting at index `i`. */
  predicate OccursAt(k: string, t: string, i: int) {
    0 <= i <= |t| - |k| && t[i..i + |k|] == k
  }

  /** Removes leading whitespace: what remains is a suffix of `s` that does
      not start with whitespace, and everything dropped was whitespace. */
  function TrimStart(s: string): (r: string)
    ensures |r| <= |s| && r == s[|s| - |r|..]
    ensures |r| > 0 ==> !IsSpace(r[0])
    ensures forall i :: 0 <= i < |s| - |r| ==> IsSpace(s[i])
  {
    if |s| > 0 && IsSpace(s[0]) then TrimStart(s[1..]) else s
  }

  /** Trimming drops a leading whitespace character. */
  lemma TrimStartShortens(s: string)
    requires |s| > 0 && IsSpace(s[0])
    ensures |TrimStart(s)| < |s|
  {
  }

  /** Text that does not start with whitespace is left as it is. */
  lemma TrimStartNoSpace(s: string)
    requires s == [] || !IsSpace(s[0])
    ensures TrimStart(s) == s
  {
  }

  /** Trimming text that starts with whitespace trims its tail. */
  lemma TrimStartStep(s: string)
    requires |s| > 0 && IsSpace(s[0])
    ensures TrimStart(s) == TrimStart(s[1..])
  {
  }

  /** Trimming whitespace in front of text that does not start with
      whitespace gives that text. */
  lemma {:induction false} SkipSpaces(ws: string, s: string)
    requires IsBlank(ws)
    requires s == [] || !IsSpace(s[0])
    ensures TrimStart(ws + s) == s
    decreases |ws|
  {
    if |ws| > 0 {
      BlankTail(ws);
      SkipSpaces(ws[1..], s);
      SkipOneSpace(ws, s);
    } else {
      assert ws + s == s;
      TrimStartNoSpace(s);
    }
  }

  /** Trimming passes over one leading whitespace character. */
  lemma SkipOneSpace(ws: string, s: string)
    requires |ws| > 0 && IsSpace(ws[0])
    ensures TrimStart(ws + s) == TrimStart(ws[1..] + s)
  {
    var u := ws + s;
    assert u[0] == ws[0];
    assert u[1..] == ws[1..] + s;
    TrimStartStep(u);
  }

  /** The tail of blank text is blank. */
  lemma BlankTail(ws: string)
    requires |ws| > 0 && IsBlank(ws)
    ensures IsBlank(ws[1..]) && IsSpace(ws[0])
  {
    forall i | 0 <= i < |ws[1..]| ensures IsSpace(ws[1..][i]) {
      assert ws[1..][i] == ws[i + 1];
    }
  }

  /** Removes trailing whitespace: what remains is a prefix of `s` that does
      not end with whitespace, and everything dropped was whitespace. */
  function TrimEnd(s: string): (r: string)
    ensures |r| <= |s| && r == s[..|r|]
    ensures |r| > 0 ==> !IsSpace(r[|r| - 1])
    ensures forall i :: |r| <= i < |s| ==> IsSpace(s[i])
  {
    if |s| > 0 && IsSpace(s[|s| - 1]) then TrimEnd(s[..|s| - 1]) else s
  }

  /** JavaScript `String.prototype.trim`: the result is the slice `s[a..b]`
      left once the whitespace on both ends is gone; it is empty or starts
      and ends with a non-whitespace character, and only whitespace lies
      outside it. */
  function Trim(s: string): (r: string)
    ensures |r| <= |s|
    ensures IsInfix(r, s)
    ensures |r| > 0 ==> !IsSpace(r[0]) && !IsSpace(r[|r| - 1])
    ensures r == [] <==> IsBlank(s)
    ensures exists a :: TrimmedAt(s, a, r)
  {
    var t := TrimStart(s);
    var r := TrimEnd(t);
    assert OccursAt(r, s, |s| - |t|);
    TrimmedBetween(s, t, r);
    r
  }

  /** The step of `Trim` that places the result: whitespace was dropped from
      the front to give `t` and from the back of `t` to give `r`. */
  lemma TrimmedBetween(s: string, t: string, r: string)
    requires |t| <= |s| && t == s[|s| - |t|..]
    requires forall i :: 0 <= i < |s| - |t| ==> IsSpace(s[i])
    requires |r| <= |t| && r == t[..|r|]
    requires forall i :: |r| <= i < |t| ==> IsSpace(t[i])
    ensures TrimmedAt(s, |s| - |t|, r)
  {
    var a := |s| - |t|;
    assert s[a..a + |r|] == r;
    forall i | 0 <= i < a ensures IsSpace(s[..a][i]) {
      assert s[..a][i] == s[i];
    }
    var u := s[a + |r|..];
    forall i | 0 <= i < |u| ensures IsSpace(u[i]) {
      assert u[i] == t[|r| + i];
    }
  }

  /** The whitespace at the front of `s`, the part `TrimStart` drops. */
  function LeadingRun(s: string): (w: string)
    ensures w + TrimStart(s) == s && IsBlank(w)
    ensures |s| > 0 && IsSpace(s[0]) ==> |w| > 0
  {
    var k := |s| - |TrimStart(s)|;
    if |s| > 0 && IsSpace(s[0]) then
      TrimStartShortens(s);
      PrefixSplit(s, k)
    else PrefixSplit(s, k)
  }

  /** The first `k` characters of `s`, whitespace when `s` has whitespace
      there, followed by the rest give `s` back. */
  function PrefixSplit(s: string, k: nat): (w: string)
    requires k <= |s|
    requires forall i :: 0 <= i < k ==> IsSpace(s[i])
    ensures |w| == k && w + s[k..] == s && IsBlank(w)
  {
    var w := s[..k];
    assert forall i :: 0 <= i < |w| ==> w[i] == s[i];
    w
  }

  /** The whitespace at the back of `s`, the part `TrimEnd` drops. */
  function TrailingRun(s: string): (w: string)
    ensures TrimEnd(s) + w == s && IsBlank(w)
  {
    var r := TrimEnd(s);
    var w := s[|r|..];
    assert forall i :: 0 <= i < |w| ==> w[i] == s[|r| + i];
    assert r + w == s;
    w
  }

  /** The text is its trimmed part with whitespace before and after. */
  lemma TrimSplit(s: string) returns (pre: string, post: string)
    ensures IsBlank(pre) && IsBlank(post) && s == pre + Trim(s) + post
  {
    var t := TrimStart(s);
    pre, post := LeadingRun(s), TrailingRun(t);
    ConcatAssoc(pre, TrimEnd(t), post);
    assert Trim(s) == TrimEnd(t);
  }

  lemma ConcatAssoc(a: string, b: string, c: string)
    ensures a + (b + c) == a + b + c
  {
  }

  /** `r` sits at index `a` of `s` with only whitespace before and after it. */
  predicate TrimmedAt(s: string, a: int, r: string) {
    OccursAt(r, s, a) && IsBlank(s[..a]) && IsBlank(s[a + |r|..])
  }

  /** Trimming has one answer: a slice with only whitespace around it that
      is empty, or starts and ends with a non-whitespace character, is the
      trimmed text. */
  lemma TrimIsUnique(s: string, a: int, r: string)
    requires TrimmedAt(s, a, r)
    requires |r| > 0 ==> !IsSpace(r[0]) && !IsSpace(r[|r| - 1])
    ensures Trim(s) == r
  {
    var t := Trim(s);
    var b :| TrimmedAt(s, b, t);
    if |r| == 0 {
      BlankAround(s, a);
    } else {
      BlankPrefix(s, a);
      BlankSuffix(s, a + |r|);
      BlankPrefix(s, b);
      BlankSuffix(s, b + |t|);
      assert s[a] == r[0] && s[a + |r| - 1] == r[|r| - 1];
      assert t != [];
      assert s[b] == t[0] && s[b + |t| - 1] == t[|t| - 1];
      assert a == b && a + |r| == b + |t|;
    }
  }

  /** Blank text on both sides of an index makes the whole text blank. */
  lemma BlankAround(s: string, a: int)
    requires 0 <= a <= |s| && IsBlank(s[..a]) && IsBlank(s[a..])
    ensures IsBlank(s)
  {
    assert s == s[..a] + s[a..];
  }

  /** A blank prefix is whitespace at each of its indices in `s`. */
  lemma BlankPrefix(s: string, x: int)
    requires 0 <= x <= |s| && IsBlank(s[..x])
    ensures forall i :: 0 <= i < x ==> IsSpace(s[i])
  {
    forall i | 0 <= i < x ensures IsSpace(s[i]) {
      assert s[..x][i] == s[i];
    }
  }

  /** A blank suffix is whitespace at each of its indices in `s`. */
  lemma BlankSuffix(s: string, x: int)
    requires 0 <= x <= |s| && IsBlank(s[x..])
    ensures forall i :: x <= i < |s| ==> IsSpace(s[i])
  {
    forall i | x <= i < |s| ensures IsSpace(s[i]) {
      assert s[x..][i - x] == s[i];
    }
  }

  /** ASCII lower-casing, the part of `String.prototype.toLowerCase` that
      the keyword lists depend on: each capital A to Z becomes the small
      letter at the same place in the alphabet, and nothing else changes. */
  function ToLowerAscii(s: string): (r: string)
    ensures |r| == |s|
    ensures forall i :: 0 <= i < |r| ==> !IsAsciiUpper(r[i])
    ensures forall i :: 0 <= i < |s| && !IsAsciiUpper(s[i]) ==> r[i] == s[i]
    ensures forall i :: 0 <= i < |s| && IsAsciiUpper(s[i]) ==>
              IsAsciiLower(r[i]) && r[i] as int - 'a' as int == s[i] as int - 'A' as int
  {
    seq(|s|, i requires 0 <= i < |s| =>
      if IsAsciiUpper(s[i]) then (s[i] as int + 32) as char else s[i])
  }

  /** ASCII upper-casing, the counterpart of `ToLowerAscii`: each small
      letter a to z becomes the capital at the same place in the alphabet. */
  function ToUpperAscii(s: string): (r: string)
    ensures |r| == |s|
    ensures forall i :: 0 <= i < |r| ==> !IsAsciiLower(r[i])
    ensures forall i :: 0 <= i < |s| && !IsAsciiLower(s[i]) ==> r[i] == s[i]
    ensures forall i :: 0 <= i < |s| && IsAsciiLower(s[i]) ==>
              IsAsciiUpper(r[i]) && r[i] as int - 'A' as int == s[i] as int - 'a' as int
  {
    seq(|s|, i requires 0 <= i < |s| =>
      if IsAsciiLower(s[i]) then (s[i] as int - 32) as char else s[i])
  }

  /** Lower-casing twice is lower-casing once. */
  lemma LowerIsIdempotent(s: string)
    ensures ToLowerAscii(ToLowerAscii(s)) == ToLowerAscii(s)
  {
    var r := ToLowerAscii(s);
    assert forall i :: 0 <= i < |r| ==> ToLowerAscii(r)[i] == r[i];
  }

  /** Lower-casing forgets the case of the input: upper-casing first does
      not change the lower-cased text. */
  lemma LowerOfUpper(s: string)
    ensures ToLowerAscii(ToUpperAscii(s)) == ToLowerAscii(s)
  {
    var u := ToUpperAscii(s);
    var a := ToLowerAscii(u);
    var b := ToLowerAscii(s);
    forall i | 0 <= i < |s| ensures a[i] == b[i] {
      if IsAsciiLower(s[i]) {
        assert a[i] as int == b[i] as int;
      }
    }
  }

  /** Every character of `s` is a decimal digit. */
  predicate AllDigits(s: string) {
    forall i :: 0 <= i < |s| ==> IsDigit(s[i])
  }

  function DigitValue(c: char): nat
    requires IsDigit(c)
  {
    c as int - '0' as int
  }

  function DigitChar(d: nat): (c: char)
    requires d < 10
    ensures IsDigit(c) && DigitValue(c) == d
  {
    ('0' as int + d) as char
  }

  /** The value of a string of decimal digits, most significant first. */
  function DigitsValue(s: string): nat
    requires AllDigits(s)
  {
    if |s| == 0 then 0 else DigitsValue(s[..|s| - 1]) * 10 + DigitValue(s[|s| - 1])
  }

  /** `Number.prototype.toString()` of a non-negative integer: a non-empty
      digit string without a leading zero whose value is `n`. */
  function NatToString(n: nat): (r: string)
    ensures |r| >= 1 && AllDigits(r)
    ensures DigitsValue(r) == n
    ensures |r| > 1 ==> r[0] != '0'
  {
    if n < 10 then [DigitChar(n)]
    else
      var p := NatToString(n / 10);
      var r := p + [DigitChar(n % 10)];
      assert r[..|r| - 1] == p;
      r
  }
}
