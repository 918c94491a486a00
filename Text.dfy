/** The string operations of .NET that the validators and the controller use,
    over ASCII: `EndsWith`, `Contains`, `ToLower`, `Trim` and
    `IsNullOrWhiteSpace`. */
module Text {

  predicate StartsWith(s: string, prefix: string) {
    |prefix| <= |s| && s[..|prefix|] == prefix
  }

  predicate EndsWith(s: string, suffix: string) {
    |suffix| <= |s| && s[|s| - |suffix|..] == suffix
  }

  /** `sub` occurs in `s` starting at position `i`. */
  predicate OccursAt(s: string, sub: string, i: int) {
    0 <= i <= |s| - |sub| && s[i..i + |sub|] == sub
  }

  /** `s.Contains(sub)`: `sub` occurs at some position of `s`. */
  predicate Contains(s: string, sub: string) {
    exists i | 0 <= i <= |s| - |sub| :: OccursAt(s, sub, i)
  }

  predicate IsUpper(c: char) {
    'A' <= c <= 'Z'
  }

  function ToLowerChar(c: char): (d: char)
    ensures !IsUpper(d)
    ensures IsUpper(c) ==> d as int == c as int + 32
    ensures !IsUpper(c) ==> d == c
  {
    if IsUpper(c) then (c as int + 32) as char else c
  }

  /** `s.ToLower()` restricted to ASCII letters. */
  function ToLower(s: string): (r: string)
    ensures |r| == |s|
    ensures forall i :: 0 <= i < |s| ==> r[i] == ToLowerChar(s[i])
  {
    seq(|s|, i requires 0 <= i < |s| => ToLowerChar(s[i]))
  }

  /** Lower-casing twice is lower-casing once. */
  lemma ToLowerIdempotent(s: string)
    ensures ToLower(ToLower(s)) == ToLower(s)
  {
    assert forall i :: 0 <= i < |s| ==> ToLowerChar(ToLowerChar(s[i])) == ToLowerChar(s[i]);
  }

  /** Lower-casing works character by character, so it distributes over
      concatenation. */
  lemma ToLowerAppend(a: string, b: string)
    ensures ToLower(a + b) == ToLower(a) + ToLower(b)
  {
  }

  /** `char.IsWhiteSpace` over ASCII: space, tab, line feed, vertical tab,
      form feed and carriage return. */
  predicate IsWhiteSpace(c: char) {
    c == ' ' || c == '\t' || c == '\n' || c == '\U{000B}' || c == '\U{000C}' || c == '\r'
  }

  predicate AllWhiteSpace(s: string) {
    forall i :: 0 <= i < |s| ==> IsWhiteSpace(s[i])
  }

  /** `string.IsNullOrWhiteSpace` for a present string. */
  predicate IsWhiteSpaceOnly(s: string) {
    AllWhiteSpace(s)
  }

  /** `n` is where the white space that starts at `i` ends: everything in
      between is white space and `s[n]`, if any, is not. */
  predicate IsLead(s: string, i: int, n: int) {
    && 0 <= i <= n <= |s|
    && (forall k :: i <= k < n ==> IsWhiteSpace(s[k]))
    && (n < |s| ==> !IsWhiteSpace(s[n]))
  }

  /** `n` is where the white space that ends at `j` starts: everything in
      between is white space and `s[n - 1]`, if any, is not. */
  predicate IsTail(s: string, j: int, n: int) {
    && 0 <= n <= j <= |s|
    && (forall k :: n <= k < j ==> IsWhiteSpace(s[k]))
    && (n > 0 ==> !IsWhiteSpace(s[n - 1]))
  }

  /** Skips white space forwards from `i`. */
  function Lead(s: string, i: nat): (n: nat)
    requires i <= |s|
    ensures IsLead(s, i, n)
    decreases |s| - i
  {
    if i < |s| && IsWhiteSpace(s[i]) then Lead(s, i + 1) else i
  }

  /** Skips white space backwards from `j`. */
  function Tail(s: string, j: nat): (n: nat)
    requires j <= |s|
    ensures IsTail(s, j, n)
  {
    if j > 0 && IsWhiteSpace(s[j - 1]) then Tail(s, j - 1) else j
  }

  /** There is only one place where leading white space ends. */
  lemma LeadUnique(s: string, i: nat, n: int)
    requires i <= |s| && IsLead(s, i, n)
    ensures Lead(s, i) == n
  {
  }

  /** There is only one place where trailing white space starts. */
  lemma TailUnique(s: string, j: nat, n: int)
    requires j <= |s| && IsTail(s, j, n)
    ensures Tail(s, j) == n
  {
  }

  /** `s.TrimStart()`: leading white space removed. */
  function TrimStart(s: string): (r: string)
    ensures r == [] || !IsWhiteSpace(r[0])
  {
    s[Lead(s, 0)..]
  }

  /** `s.TrimEnd()`: trailing white space removed. */
  function TrimEnd(s: string): (r: string)
    ensures r == [] || !IsWhiteSpace(r[|r| - 1])
  {
    s[..Tail(s, |s|)]
  }

  /** `s.Trim()`: leading and trailing white space removed. */
  function Trim(s: string): (r: string)
  {
    TrimEnd(TrimStart(s))
  }

  /** A trimmed string starts and ends with a non-white-space character, and
      is empty exactly when the input held only white space. */
  lemma TrimShape(s: string)
    ensures Trim(s) == [] <==> AllWhiteSpace(s)
    ensures Trim(s) != [] ==> !IsWhiteSpace(Trim(s)[0]) && !IsWhiteSpace(Trim(s)[|Trim(s)| - 1])
  {
    var l := Lead(s, 0);
    var a := TrimStart(s);
    if l < |s| {
      assert a[0] == s[l];
      var t := Tail(a, |a|);
      assert t > 0;
      assert Trim(s)[0] == a[0];
      assert !AllWhiteSpace(s) by {
        assert !IsWhiteSpace(s[l]);
      }
    } else {
      assert forall k :: 0 <= k < |s| ==> IsWhiteSpace(s[k]);
    }
  }

  /** Leading and trailing white space around `s` does not change `Trim(s)`. */
  lemma TrimPadded(p: string, s: string, q: string)
    requires AllWhiteSpace(p) && AllWhiteSpace(q)
    ensures Trim(p + s + q) == Trim(s)
  {
    var t := p + s + q;
    TrimShape(s);
    if AllWhiteSpace(s) {
      assert AllWhiteSpace(t) by {
        forall k | 0 <= k < |t|
          ensures IsWhiteSpace(t[k])
        {
          if k < |p| {
            assert t[k] == p[k];
          } else if k < |p| + |s| {
            assert t[k] == s[k - |p|];
          } else {
            assert t[k] == q[k - |p| - |s|];
          }
        }
      }
      TrimShape(t);
    } else {
      var l := Lead(s, 0);
      assert l < |s|;
      LeadPadded(p, s, q);
      var a := s[l..];
      assert TrimStart(t) == a + q;
      TailPadded(a, q);
    }
  }

  /** Leading white space of `p + s + q` ends where that of `s` does, shifted
      by `p`, when `s` is not white space only. */
  lemma LeadPadded(p: string, s: string, q: string)
    requires AllWhiteSpace(p) && Lead(s, 0) < |s|
    ensures Lead(p + s + q, 0) == |p| + Lead(s, 0)
  {
    var t := p + s + q;
    var l := Lead(s, 0);
    forall k | 0 <= k < |p| + l
      ensures IsWhiteSpace(t[k])
    {
      if k < |p| {
        assert t[k] == p[k];
      } else {
        assert t[k] == s[k - |p|];
      }
    }
    assert t[|p| + l] == s[l];
    LeadUnique(t, 0, |p| + l);
  }

  /** Trailing white space appended to `a` is removed by `TrimEnd`. */
  lemma TailPadded(a: string, q: string)
    requires AllWhiteSpace(q)
    ensures TrimEnd(a + q) == TrimEnd(a)
  {
    var u := a + q;
    var n := Tail(a, |a|);
    forall k | n <= k < |u|
      ensures IsWhiteSpace(u[k])
    {
      if k < |a| {
        assert u[k] == a[k];
      } else {
        assert u[k] == q[k - |a|];
      }
    }
    if n > 0 {
      assert u[n - 1] == a[n - 1];
    }
    TailUnique(u, |u|, n);
    assert u[..n] == a[..n];
  }

  predicate IsDigit(c: char) {
    '0' <= c <= '9'
  }

  function DigitValue(c: char): (n: nat)
    requires IsDigit(c)
    ensures n < 10
  {
    c as int - '0' as int
  }

  function DigitChar(n: nat): (c: char)
    requires n < 10
    ensures IsDigit(c) && DigitValue(c) == n
  {
    ('0' as int + n) as char
  }

  /** `n.ToString()` for a non-negative number: its decimal digits, most
      significant first, without leading zeros. */
  function NatToString(n: nat): (r: string)
    ensures r != [] && forall i :: 0 <= i < |r| ==> IsDigit(r[i])
  {
    if n < 10 then [DigitChar(n)] else NatToString(n / 10) + [DigitChar(n % 10)]
  }

  /** Reads decimal digits, most significant first. */
  function ParseNat(s: string): (n: nat)
    requires forall i :: 0 <= i < |s| ==> IsDigit(s[i])
  {
    if s == [] then 0 else ParseNat(s[..|s| - 1]) * 10 + DigitValue(s[|s| - 1])
  }

  /** Printing a number and reading it back gives the number. */
  lemma {:induction false} NatToStringRoundTrip(n: nat)
    ensures ParseNat(NatToString(n)) == n
  {
    if n >= 10 {
      var s := NatToString(n);
      NatToStringRoundTrip(n / 10);
      assert s[..|s| - 1] == NatToString(n / 10);
    }
  }

  /** An address whose only '@' starts the student domain never contains the
      staff marker "@ipn.mx": the '@' is followed by 'a', not 'i'. */
  lemma {:induction false} StudentAddressIsNotStaff(local: string)
    requires '@' !in local
    ensures !Contains(local + "@alumno.ipn.mx", "@ipn.mx")
  {
    var s := local + "@alumno.ipn.mx";
    forall i | 0 <= i <= |s| - 7
      ensures !OccursAt(s, "@ipn.mx", i)
    {
      if i < |local| {
        assert s[i] == local[i] != '@';
      } else {
        var k := i - |local|;
        assert s[i] == "@alumno.ipn.mx"[k];
        if k == 0 {
          assert s[i + 1] == "@alumno.ipn.mx"[1] == 'a';
        } else {
          assert "@alumno.ipn.mx"[k] != '@';
        }
      }
    }
  }
}
