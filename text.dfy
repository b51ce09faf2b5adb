// Character and string helpers shared by the booking model: decimal
// rendering and parsing of numbers, JavaScript's notion of white space,
// trimming, ASCII lower-casing and Array.prototype.join.
module Text {

  /** `\d` in a JavaScript regular expression: an ASCII decimal digit. */
  predicate IsDigit(c: char) {
    '0' <= c <= '9'
  }

  /** `\s` in a JavaScript regular expression, which is also the set that
      String.prototype.trim removes: the ECMAScript WhiteSpace and
      LineTerminator characters. */
  predicate IsSpace(c: char) {
    || c == ' ' || c == '\t' || c == '\n' || c == '\r'
    || c == '\U{000B}' || c == '\U{000C}' || c == '\U{00A0}' || c == '\U{1680}'
    || ('\U{2000}' <= c <= '\U{200A}')
    || c == '\U{2028}' || c == '\U{2029}' || c == '\U{202F}' || c == '\U{205F}'
    || c == '\U{3000}' || c == '\U{FEFF}'
  }

  predicate AllDigits(s: string) {
    forall i :: 0 <= i < |s| ==> IsDigit(s[i])
  }

  function DigitValue(c: char): (d: nat)
    requires IsDigit(c)
    ensures d < 10
  {
    (c as int) - ('0' as int)
  }

  function DigitChar(d: nat): (c: char)
    requires d < 10
    ensures IsDigit(c) && DigitValue(c) == d
  {
    (('0' as int) + d) as char
  }

  /** The value of a string of decimal digits, most significant first, as
      parseInt(s, 10) computes it (leading zeros are allowed). */
  function DigitsValue(s: string): nat
    requires AllDigits(s)
  {
    if s == [] then 0 else DigitsValue(s[..|s| - 1]) * 10 + DigitValue(s[|s| - 1])
  }

  /** String(n) for a non-negative integer: its shortest decimal form. */
  function NatToString(n: nat): (s: string)
    ensures |s| > 0 && AllDigits(s)
    ensures |s| > 1 ==> s[0] != '0'
  {
    if n < 10 then [DigitChar(n)] else NatToString(n / 10) + [DigitChar(n % 10)]
  }

  /** String(i) for any integer. */
  function IntToString(i: int): (s: string)
    ensures |s| > 0
    ensures (s[0] == '-') <==> i < 0
  {
    if i < 0 then "-" + NatToString(-i) else NatToString(i)
  }

  /** Reading back what NatToString writes gives the number again. */
  lemma {:induction false} NatToStringRoundTrip(n: nat)
    ensures DigitsValue(NatToString(n)) == n
  {
    if n >= 10 {
      var s := NatToString(n / 10) + [DigitChar(n % 10)];
      assert s[..|s| - 1] == NatToString(n / 10);
      NatToStringRoundTrip(n / 10);
    }
  }

  /** NatToString is one-to-one: distinct numbers get distinct strings. */
  lemma NatToStringInjective(m: nat, n: nat)
    requires NatToString(m) == NatToString(n)
    ensures m == n
  {
    NatToStringRoundTrip(m);
    NatToStringRoundTrip(n);
  }

  /** Array.prototype.join(sep) on strings. */
  function Join(parts: seq<string>, sep: string): (r: string)
    ensures parts == [] ==> r == []
    ensures |parts| == 1 ==> r == parts[0]
    ensures parts != [] ==> parts[0] <= r
    ensures parts != [] ==> |parts[|parts| - 1]| <= |r| && r[|r| - |parts[|parts| - 1]|..] == parts[|parts| - 1]
  {
    if |parts| == 0 then ""
    else if |parts| == 1 then parts[0]
    else
      var rest := Join(parts[1..], sep);
      assert parts[1..][|parts[1..]| - 1] == parts[|parts| - 1];
      assert parts[0] + sep + rest == parts[0] + (sep + rest);
      parts[0] + sep + rest
  }

  /** Join read from the other end: the join of all but the last part,
      the separator, and the last part. So the separator stands between
      every two neighbouring parts. */
  lemma {:induction false} JoinLast(parts: seq<string>, sep: string)
    requires |parts| >= 2
    ensures Join(parts, sep) == Join(parts[..|parts| - 1], sep) + sep + parts[|parts| - 1]
  {
    var init, last := parts[..|parts| - 1], parts[|parts| - 1];
    var tail := parts[1..];
    if |parts| == 2 {
      assert init == [parts[0]];
      assert tail == [last];
    } else {
      JoinLast(tail, sep);
      assert tail[..|tail| - 1] == init[1..];
      assert tail[|tail| - 1] == last;
      var mid := Join(init[1..], sep);
      assert Join(tail, sep) == mid + sep + last;
      assert init[0] == parts[0];
      assert Join(init, sep) == parts[0] + sep + mid;
      SeqAssoc5(parts[0], sep, mid, sep, last);
    }
  }

  lemma SeqAssoc5(a: string, b: string, c: string, d: string, e: string)
    ensures a + b + (c + d + e) == (a + b + c) + d + e
  {
  }

  /** String.prototype.trimEnd. */
  function TrimEnd(s: string): (r: string)
    ensures r <= s
    ensures r == [] || !IsSpace(r[|r| - 1])
    ensures forall i :: |r| <= i < |s| ==> IsSpace(s[i])
  {
    if s != [] && IsSpace(s[|s| - 1]) then TrimEnd(s[..|s| - 1]) else s
  }

  /** String.prototype.trimStart. */
  function TrimStart(s: string): (r: string)
    ensures |r| <= |s| && r == s[|s| - |r|..]
    ensures r == [] || !IsSpace(r[0])
    ensures forall i :: 0 <= i < |s| - |r| ==> IsSpace(s[i])
  {
    if s != [] && IsSpace(s[0]) then TrimStart(s[1..]) else s
  }

  /** String.prototype.trim. */
  function Trim(s: string): (r: string)
    ensures r == [] || (!IsSpace(r[0]) && !IsSpace(r[|r| - 1]))
    ensures |r| <= |s| && forall i :: 0 <= i < |r| ==> r[i] in s
    ensures r == [] <==> forall i :: 0 <= i < |s| ==> IsSpace(s[i])
    ensures exists a :: TrimmedAt(s, r, a)
  {
    var t := TrimEnd(s);
    var r := TrimStart(t);
    TrimEnds(s, t, r);
    TrimKeepsChars(s, t, r);
    TrimEmpty(s, t, r);
    TrimSlice(s, t, r);
    assert TrimmedAt(s, r, |t| - |r|);
    r
  }

  /** r is the slice of s starting at a, and everything of s before and
      after that slice is white space. */
  predicate TrimmedAt(s: string, r: string, a: int) {
    && 0 <= a <= |s| - |r|
    && r == s[a..a + |r|]
    && (forall i :: 0 <= i < a ==> IsSpace(s[i]))
    && (forall i :: a + |r| <= i < |s| ==> IsSpace(s[i]))
  }

  lemma TrimSlice(s: string, t: string, r: string)
    requires t <= s && forall i :: |t| <= i < |s| ==> IsSpace(s[i])
    requires |r| <= |t| && r == t[|t| - |r|..] && forall i :: 0 <= i < |t| - |r| ==> IsSpace(t[i])
    ensures TrimmedAt(s, r, |t| - |r|)
  {
    var a := |t| - |r|;
    assert t == s[..|t|];
    assert r == s[a..a + |r|];
    forall i | 0 <= i < a ensures IsSpace(s[i]) {
      assert s[i] == t[i];
    }
  }

  /** A three-part concatenation begins with its first part and ends with
      its last. */
  lemma ConcatEnds(p: string, m: string, q: string)
    ensures |p + m + q| == |p| + |m| + |q|
    ensures (p + m + q)[..|p|] == p && (p + m + q)[|p| + |m|..] == q
  {
    var s := p + m + q;
    assert s == p + (m + q);
    assert s[|p| + |m|..] == q;
  }

  /** Lower-casing then trimming leaves no upper-case ASCII letter. */
  lemma NoUpperAfterTrim(s: string)
    requires forall i :: 0 <= i < |s| ==> !('A' <= s[i] <= 'Z')
    ensures forall i :: 0 <= i < |Trim(s)| ==> !('A' <= Trim(s)[i] <= 'Z')
  {
    var r := Trim(s);
    forall i | 0 <= i < |r| ensures !('A' <= r[i] <= 'Z') {
      assert r[i] in s;
    }
  }

  lemma TrimEnds(s: string, t: string, r: string)
    requires t == TrimEnd(s) && r == TrimStart(t)
    ensures r == [] || (!IsSpace(r[0]) && !IsSpace(r[|r| - 1]))
  {
    if r != [] {
      assert r[|r| - 1] == t[|t| - 1];
    }
  }

  lemma TrimKeepsChars(s: string, t: string, r: string)
    requires t <= s && |r| <= |t| && r == t[|t| - |r|..]
    ensures |r| <= |s| && forall i :: 0 <= i < |r| ==> r[i] in s
  {
    forall i | 0 <= i < |r| ensures r[i] in s {
      var j := |t| - |r| + i;
      assert r[i] == t[j];
      assert t[j] == s[j];
    }
  }

  lemma TrimEmpty(s: string, t: string, r: string)
    requires t == TrimEnd(s) && r == TrimStart(t)
    ensures r == [] <==> forall i :: 0 <= i < |s| ==> IsSpace(s[i])
  {
    if r == [] {
      forall i | 0 <= i < |s| ensures IsSpace(s[i]) {
        if i < |t| {
          assert s[i] == t[i];
        }
      }
    } else {
      assert !IsSpace(r[0]);
      assert r[0] == s[|t| - |r|];
    }
  }

  function LowerChar(c: char): (d: char)
    ensures !('A' <= d <= 'Z')
  {
    if 'A' <= c <= 'Z' then (c as int + ('a' as int - 'A' as int)) as char else c
  }

  /** Lower-casing neither makes nor removes white space. */
  lemma LowerCharKeepsSpace(c: char)
    ensures IsSpace(LowerChar(c)) <==> IsSpace(c)
  {
  }

  /** String.prototype.toLowerCase, restricted to the ASCII letters. */
  function ToLower(s: string): (r: string)
    ensures |r| == |s|
    ensures forall i :: 0 <= i < |s| ==> r[i] == LowerChar(s[i])
  {
    seq(|s|, i requires 0 <= i < |s| => LowerChar(s[i]))
  }
}
