/** The pieces of Go's strings, strconv and fmt packages that the dump and the
    restore code rely on, over strings whose characters each stand for one
    byte of a Go string. */
module Text {
  import opened Base

  /** White space as Go's unicode.IsSpace sees a single byte. */
  predicate IsSpace(c: char)
  {
    c == ' ' || c == '\t' || c == '\n' || c == '\r' || c == '\U{000B}' || c == '\U{000C}'
  }

  predicate AllSpace(s: string)
  {
    forall k :: 0 <= k < |s| ==> IsSpace(s[k])
  }

  /** strings.TrimLeft(s, "\n"): drops the leading newlines. */
  function TrimLeftNewlines(s: string): (r: string)
    ensures |r| <= |s|
    ensures r == [] || r[0] != '\n'
  {
    if s != [] && s[0] == '\n' then TrimLeftNewlines(s[1..]) else s
  }

  /** TrimLeft(s, "\n") keeps a suffix of s and what it drops is newlines
      only. */
  lemma {:induction false} TrimLeftNewlinesDrops(s: string)
    ensures TrimLeftNewlines(s) == s[|s| - |TrimLeftNewlines(s)|..]
    ensures forall k :: 0 <= k < |s| - |TrimLeftNewlines(s)| ==> s[k] == '\n'
    decreases |s|
  {
    if s != [] && s[0] == '\n' {
      TrimLeftNewlinesDrops(s[1..]);
      assert s[1..][|s| - 1 - |TrimLeftNewlines(s)|..] == s[|s| - |TrimLeftNewlines(s)|..];
      assert forall k :: 1 <= k < |s| ==> s[k] == s[1..][k - 1];
    }
  }

  /** The leading half of strings.TrimSpace. */
  function TrimLeftSpace(s: string): (r: string)
    ensures |r| <= |s|
    ensures r == [] || !IsSpace(r[0])
  {
    if s != [] && IsSpace(s[0]) then TrimLeftSpace(s[1..]) else s
  }

  /** The leading half of TrimSpace keeps a suffix of s and what it drops
      is white space only. */
  lemma {:induction false} TrimLeftSpaceDrops(s: string)
    ensures TrimLeftSpace(s) == s[|s| - |TrimLeftSpace(s)|..]
    ensures AllSpace(s[..|s| - |TrimLeftSpace(s)|])
    decreases |s|
  {
    if s != [] && IsSpace(s[0]) {
      var r := TrimLeftSpace(s[1..]);
      TrimLeftSpaceDrops(s[1..]);
      assert s[1..][|s| - 1 - |r|..] == s[|s| - |r|..];
      assert s[..|s| - |r|] == [s[0]] + s[1..][..|s| - 1 - |r|];
    }
  }

  /** The trailing half of strings.TrimSpace. */
  function TrimRightSpace(s: string): (r: string)
    ensures |r| <= |s|
    ensures r == [] || !IsSpace(r[|r| - 1])
  {
    if s != [] && IsSpace(s[|s| - 1]) then TrimRightSpace(s[..|s| - 1]) else s
  }

  /** The trailing half of TrimSpace keeps a prefix of s and what it drops
      is white space only. */
  lemma {:induction false} TrimRightSpaceDrops(s: string)
    ensures TrimRightSpace(s) == s[..|TrimRightSpace(s)|]
    ensures AllSpace(s[|TrimRightSpace(s)|..])
    decreases |s|
  {
    if s != [] && IsSpace(s[|s| - 1]) {
      var r := TrimRightSpace(s[..|s| - 1]);
      TrimRightSpaceDrops(s[..|s| - 1]);
      assert s[..|s| - 1][..|r|] == s[..|r|];
      assert s[|r|..] == s[..|s| - 1][|r|..] + [s[|s| - 1]];
    }
  }

  /** Text with no white space at either end. */
  predicate Tidy(s: string)
  {
    s == [] || (!IsSpace(s[0]) && !IsSpace(s[|s| - 1]))
  }

  /** strings.TrimSpace: the text without its leading and trailing white
      space, which it then neither starts nor ends with. */
  function TrimSpace(s: string): (r: string)
    ensures Tidy(r)
  {
    var t := TrimLeftSpace(s);
    var r := TrimRightSpace(t);
    TrimRightSpaceDrops(t);
    assert r != [] ==> t != [] && r[0] == t[0];
    r
  }

  /** TrimSpace leaves tidy text alone. */
  lemma TrimSpaceTidy(s: string)
    requires Tidy(s)
    ensures TrimSpace(s) == s
  {
    assert TrimLeftSpace(s) == s;
  }

  /** TrimSpace keeps a slice of s, after the leading white space. */
  lemma TrimSpaceSlice(s: string)
    ensures var a := |s| - |TrimLeftSpace(s)|; var r := TrimSpace(s);
      a + |r| <= |s| && r == s[a..a + |r|]
  {
    var t := TrimLeftSpace(s);
    var r := TrimRightSpace(t);
    var a := |s| - |t|;
    TrimLeftSpaceDrops(s);
    TrimRightSpaceDrops(t);
    assert r == TrimSpace(s);
    assert t == s[a..];
  }

  /** A white space tail of a suffix of s is a white space tail of s. */
  lemma AllSpaceShift(s: string, a: nat, t: string, n: nat)
    requires a <= |s| && t == s[a..] && n <= |t| && AllSpace(t[n..])
    ensures AllSpace(s[a + n..])
  {
    assert t[n..] == s[a + n..];
  }

  /** What follows the slice TrimSpace keeps is white space. */
  lemma TrimSpaceTail(s: string)
    ensures var a := |s| - |TrimLeftSpace(s)|; var r := TrimSpace(s);
      a + |r| <= |s| && AllSpace(s[a + |r|..])
  {
    var t := TrimLeftSpace(s);
    var a := |s| - |t|;
    TrimLeftSpaceDrops(s);
    assert t == s[a..];
    var r := TrimRightSpace(t);
    TrimRightSpaceDrops(t);
    assert r == TrimSpace(s);
    AllSpaceShift(s, a, t, |r|);
  }

  /** TrimSpace leaves nothing exactly when the text is all white space. */
  lemma TrimSpaceBlank(s: string)
    ensures TrimSpace(s) == [] <==> AllSpace(s)
  {
    var a := |s| - |TrimLeftSpace(s)|;
    var r := TrimSpace(s);
    TrimSpaceSlice(s);
    TrimSpaceTail(s);
    TrimLeftSpaceDrops(s);
    if r == [] {
      assert s == s[..a] + s[a..];
    } else {
      assert r[0] == s[a];
    }
  }

  /** A white space run that ends s is empty or covers its last
      character. */
  lemma SpaceTailLast(s: string, m: nat)
    requires m <= |s| && AllSpace(s[m..])
    ensures m == |s| || IsSpace(s[|s| - 1])
  {
    if m < |s| {
      assert s[m..][|s| - 1 - m] == s[|s| - 1];
    }
  }

  /** TrimSpace keeps the last character of text that does not end with
      white space. */
  lemma TrimSpaceKeepsLast(s: string)
    requires s != [] && !IsSpace(s[|s| - 1])
    ensures TrimSpace(s) != [] && TrimSpace(s)[|TrimSpace(s)| - 1] == s[|s| - 1]
  {
    var r := TrimSpace(s);
    var a := |s| - |TrimLeftSpace(s)|;
    TrimSpaceBlank(s);
    assert !AllSpace(s);
    TrimSpaceSlice(s);
    TrimSpaceTail(s);
    SpaceTailLast(s, a + |r|);
    assert r[|r| - 1] == s[a..a + |r|][|r| - 1];
  }

  /** TrimLeft(s, "\n") keeps the last character of text that does not end
      with a newline. */
  lemma {:induction false} TrimLeftNewlinesKeepsLast(s: string)
    requires s != [] && s[|s| - 1] != '\n'
    ensures TrimLeftNewlines(s) != [] && TrimLeftNewlines(s)[|TrimLeftNewlines(s)| - 1] == s[|s| - 1]
    decreases |s|
  {
    if s[0] == '\n' {
      TrimLeftNewlinesKeepsLast(s[1..]);
    }
  }

  predicate HasPrefix(s: string, p: string)
  {
    |p| <= |s| && s[..|p|] == p
  }

  predicate HasSuffix(s: string, p: string)
  {
    |p| <= |s| && s[|s| - |p|..] == p
  }

  /** strings.TrimPrefix: drops p once from the front when s starts with it. */
  function TrimPrefix(s: string, p: string): (r: string)
    ensures HasPrefix(s, p) ==> p + r == s
    ensures !HasPrefix(s, p) ==> r == s
  {
    if HasPrefix(s, p) then s[|p|..] else s
  }

  /** strings.TrimSuffix: drops p once from the end when s ends with it. */
  function TrimSuffix(s: string, p: string): (r: string)
    ensures HasSuffix(s, p) ==> r + p == s
    ensures !HasSuffix(s, p) ==> r == s
  {
    if HasSuffix(s, p) then s[..|s| - |p|] else s
  }

  predicate OccursAt(s: string, p: string, i: nat)
  {
    i + |p| <= |s| && s[i..i + |p|] == p
  }

  /** The first occurrence of p in s at or after k. */
  function IndexFrom(s: string, p: string, k: nat): (r: Option<nat>)
    requires k <= |s|
    ensures r.Some? ==> k <= r.value && OccursAt(s, p, r.value)
    ensures r.Some? ==> forall j :: k <= j < r.value ==> !OccursAt(s, p, j)
    ensures r.None? ==> forall j :: k <= j ==> !OccursAt(s, p, j)
    decreases |s| - k
  {
    if OccursAt(s, p, k) then Some(k)
    else if k == |s| then None
    else IndexFrom(s, p, k + 1)
  }

  /** strings.Index, with None for Go's -1. */
  function IndexOf(s: string, p: string): (r: Option<nat>)
    ensures r.Some? ==> OccursAt(s, p, r.value) && forall j :: 0 <= j < r.value ==> !OccursAt(s, p, j)
    ensures r.None? <==> forall j :: 0 <= j ==> !OccursAt(s, p, j)
  {
    IndexFrom(s, p, 0)
  }

  /** strings.Replace(s, pat, rep, 1). */
  function ReplaceFirst(s: string, pat: string, rep: string): (r: string)
  {
    match IndexOf(s, pat)
    case None => s
    case Some(i) => s[..i] + rep + s[i + |pat|..]
  }

  /** strings.Replace(s, p, "", -1): every occurrence of p, taken from left to
      right without overlap, is removed. */
  function RemoveAll(s: string, p: string): (r: string)
    requires |p| > 0
    decreases |s|
  {
    if s == [] then []
    else if HasPrefix(s, p) then RemoveAll(s[|p|..], p)
    else [s[0]] + RemoveAll(s[1..], p)
  }

  /** A first character that cannot start p is kept. */
  lemma RemoveAllKeeps(c: char, s: string, p: string)
    requires |p| > 0 && c != p[0]
    ensures RemoveAll([c] + s, p) == [c] + RemoveAll(s, p)
  {
    assert ([c] + s)[1..] == s;
  }

  /** An occurrence of p at the front is removed. */
  lemma RemoveAllDrops(s: string, p: string)
    requires |p| > 0
    ensures RemoveAll(p + s, p) == RemoveAll(s, p)
  {
    assert (p + s)[..|p|] == p;
    assert (p + s)[|p|..] == s;
  }

  /** Removing a single character leaves none of it behind and keeps every
      other character. */
  lemma {:induction false} RemoveAllChar(s: string, c: char)
    ensures c !in RemoveAll(s, [c])
    ensures forall x :: x != c ==> multiset(RemoveAll(s, [c]))[x] == multiset(s)[x]
    decreases |s|
  {
    if s != [] {
      RemoveAllChar(s[1..], c);
      assert s == [s[0]] + s[1..];
    }
  }

  lemma OccursShift(s: string, p: string, j: nat)
    requires s != []
    ensures OccursAt(s[1..], p, j) <==> OccursAt(s, p, j + 1)
  {
    if j + 1 + |p| <= |s| {
      assert s[1..][j..j + |p|] == s[j + 1..j + 1 + |p|];
    }
  }

  /** A string in which p does not occur is left as it is. */
  lemma {:induction false} RemoveAllAbsent(s: string, p: string)
    requires |p| > 0
    requires IndexOf(s, p).None?
    ensures RemoveAll(s, p) == s
    decreases |s|
  {
    if s != [] {
      assert !OccursAt(s, p, 0);
      forall j | 0 <= j
        ensures !OccursAt(s[1..], p, j)
      {
        assert !OccursAt(s, p, j + 1);
        OccursShift(s, p, j);
      }
      RemoveAllAbsent(s[1..], p);
    }
  }

  // ---- decimal and hexadecimal text (strconv / fmt %d, %X) ----

  function Digit(d: nat): (c: char)
    requires d < 10
  {
    ('0' as int + d) as char
  }

  predicate IsDigit(c: char)
  {
    '0' <= c <= '9'
  }

  function DigitValue(c: char): (d: nat)
    requires IsDigit(c)
    ensures d < 10
  {
    c as int - '0' as int
  }

  /** The decimal text of n, without leading zeros. */
  function NatText(n: nat): (r: string)
    ensures 0 < |r| && forall k :: 0 <= k < |r| ==> IsDigit(r[k])
    decreases n
  {
    if n < 10 then [Digit(n)] else NatText(n / 10) + [Digit(n % 10)]
  }

  /** fmt's %d: a minus sign for a negative number, then its digits. */
  function IntText(i: int): (r: string)
  {
    if i < 0 then "-" + NatText(-i) else NatText(i)
  }

  function Pow10(w: nat): (p: nat)
    ensures p > 0
  {
    if w == 0 then 1 else 10 * Pow10(w - 1)
  }

  /** The value of a string of decimal digits. */
  function DigitsValue(s: string): (r: nat)
    requires forall k :: 0 <= k < |s| ==> IsDigit(s[k])
  {
    if s == [] then 0 else 10 * DigitsValue(s[..|s| - 1]) + DigitValue(s[|s| - 1])
  }

  /** Go's appendInt(b, n, w) as time.Format uses it: the digits of n,
      padded on the left with zeros to at least w characters. */
  function Pad(n: nat, w: nat): (r: string)
    ensures forall k :: 0 <= k < |r| ==> IsDigit(r[k])
  {
    var t := NatText(n);
    if |t| < w then Zeros(w - |t|) + t else t
  }

  function Zeros(z: nat): (r: string)
    ensures |r| == z && forall k :: 0 <= k < z ==> r[k] == '0'
  {
    if z == 0 then [] else "0" + Zeros(z - 1)
  }

  lemma {:induction false} NatTextValue(n: nat)
    ensures DigitsValue(NatText(n)) == n
    decreases n
  {
    if n >= 10 {
      NatTextValue(n / 10);
      var t := NatText(n);
      assert t[..|t| - 1] == NatText(n / 10);
    }
  }

  lemma {:induction false} NatTextLength(n: nat, w: nat)
    requires 0 < w && n < Pow10(w)
    ensures |NatText(n)| <= w
    decreases w
  {
    if n >= 10 {
      NatTextLength(n / 10, w - 1);
    }
  }

  lemma {:induction false} LeadingZeroValue(s: string)
    requires forall k :: 0 <= k < |s| ==> IsDigit(s[k])
    ensures DigitsValue("0" + s) == DigitsValue(s)
    decreases |s|
  {
    if s != [] {
      assert ("0" + s)[..|s|] == "0" + s[..|s| - 1];
      LeadingZeroValue(s[..|s| - 1]);
    }
  }

  lemma {:induction false} ZerosValue(z: nat, s: string)
    requires forall k :: 0 <= k < |s| ==> IsDigit(s[k])
    ensures DigitsValue(Zeros(z) + s) == DigitsValue(s)
    decreases z
  {
    if z > 0 {
      var t := Zeros(z - 1) + s;
      assert Zeros(z) + s == "0" + t;
      LeadingZeroValue(t);
      ZerosValue(z - 1, s);
    } else {
      assert Zeros(z) + s == s;
    }
  }

  /** A padded number reads back as the number, and has exactly w digits
      when it is below 10^w. */
  lemma PadValue(n: nat, w: nat)
    ensures DigitsValue(Pad(n, w)) == n
    ensures 0 < w && n < Pow10(w) ==> |Pad(n, w)| == w
  {
    var t := NatText(n);
    NatTextValue(n);
    if |t| < w {
      ZerosValue(w - |t|, t);
    }
    if 0 < w && n < Pow10(w) {
      NatTextLength(n, w);
    }
  }

  predicate IsHexDigit(c: char)
  {
    '0' <= c <= '9' || 'A' <= c <= 'F'
  }

  /** An upper-case hexadecimal digit. */
  function HexDigit(d: nat): (c: char)
    requires d < 16
    ensures IsHexDigit(c)
  {
    if d < 10 then ('0' as int + d) as char else ('A' as int + d - 10) as char
  }

  /** fmt's %X of a non-negative integer: upper-case hexadecimal, no padding. */
  function NatHex(n: nat): (r: string)
    decreases n
  {
    if n < 16 then [HexDigit(n)] else NatHex(n / 16) + [HexDigit(n % 16)]
  }

  /** fmt's %X of an integer. */
  function IntHex(i: int): (r: string)
  {
    if i < 0 then "-" + NatHex(-i) else NatHex(i)
  }

  /** Text that ends with ch ends with the one-character string ch. */
  lemma LastIsSuffix(r: string, ch: char)
    requires r != [] && r[|r| - 1] == ch
    ensures HasSuffix(r, [ch])
  {
    assert r[|r| - 1..] == [ch];
  }
}
