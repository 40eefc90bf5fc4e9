/**
 * The string operations the components lean on: decimal rendering of
 * integers (template literals and `String(n)`), `padStart(2, "0")`, the
 * `/^\d+$/` digit test with the value `+s` gives a digit string, and
 * `String.prototype.trim`.
 */
module Text {
  import opened Wrappers

  predicate IsDigit(c: char) { '0' <= c <= '9' }

  function DigitChar(d: int): (c: char)
    requires 0 <= d < 10
    ensures IsDigit(c) && c as int - '0' as int == d
  {
    ['0', '1', '2', '3', '4', '5', '6', '7', '8', '9'][d]
  }

  /** `/^\d+$/.test(s)`: one or more ASCII digits and nothing else. */
  predicate IsDigits(s: string)
  {
    |s| > 0 && forall i :: 0 <= i < |s| ==> IsDigit(s[i])
  }

  /** `+s` for a digit string: its decimal value, leading zeros allowed. */
  function DigitsValue(s: string): nat
    requires IsDigits(s)
  {
    var last := s[|s| - 1] as int - '0' as int;
    if |s| == 1 then last else DigitsValue(s[..|s| - 1]) * 10 + last
  }

  /** Decimal rendering of a non-negative integer, without leading zeros. */
  function NatToString(n: nat): (s: string)
  {
    if n < 10 then [DigitChar(n)] else NatToString(n / 10) + [DigitChar(n % 10)]
  }

  /** Decimal rendering of an integer, `-` first when it is negative. */
  function IntToString(i: int): string
  {
    if i < 0 then "-" + NatToString(-i) else NatToString(i)
  }

  /** `NatToString` is a digit string whose value is the number it renders. */
  lemma {:induction false} NatToStringValue(n: nat)
    ensures IsDigits(NatToString(n)) && DigitsValue(NatToString(n)) == n
    ensures |NatToString(n)| == 1 <==> n < 10
  {
    if n >= 10 {
      NatToStringValue(n / 10);
      var s := NatToString(n);
      assert s[..|s| - 1] == NatToString(n / 10);
    }
  }

  /** `s.padStart(2, "0")`. */
  function Pad2(s: string): string
  {
    if |s| >= 2 then s else if |s| == 1 then "0" + s else "00"
  }

  /** Below 100, the padded rendering is two digits whose value is the number. */
  lemma Pad2Value(n: nat)
    requires n < 100
    ensures |Pad2(NatToString(n))| == 2 && IsDigits(Pad2(NatToString(n)))
    ensures DigitsValue(Pad2(NatToString(n))) == n
  {
    NatToStringValue(n);
    var s := NatToString(n);
    if n < 10 {
      var p := Pad2(s);
      assert p == ['0', s[0]];
      assert p[..1] == ['0'];
    } else {
      NatToStringValue(n / 10);
    }
  }

  /** The first index of `c` in `s`. */
  function IndexOf(s: string, c: char): (r: Option<nat>)
    ensures r.Some? ==> r.value < |s| && s[r.value] == c && c !in s[..r.value]
    ensures r.None? ==> c !in s
  {
    if s == [] then None
    else if s[0] == c then Some(0)
    else
      var r := IndexOf(s[1..], c);
      if r.None? then None else Some(r.value + 1)
  }

  /** In a digit string followed by a non-digit `c`, the first `c` comes right after the digits. */
  lemma IndexOfAfterDigits(ds: string, c: char, rest: string)
    requires IsDigits(ds) && !IsDigit(c)
    ensures IndexOf(ds + [c] + rest, c) == Some(|ds|)
  {
    var s := ds + [c] + rest;
    assert s[|ds|] == c;
    assert forall k :: 0 <= k < |ds| ==> s[k] == ds[k];
  }

  /** A digit string holds no non-digit. */
  lemma IndexOfInDigits(ds: string, c: char)
    requires IsDigits(ds) && !IsDigit(c)
    ensures IndexOf(ds, c) == None
  {
  }

  /** The characters `trim` removes: ECMAScript WhiteSpace and LineTerminator. */
  predicate IsJsSpace(c: char)
  {
    || c == '\U{9}' || c == '\U{B}' || c == '\U{C}' || c == ' ' || c == '\U{A0}' || c == '\U{FEFF}'
    || c == '\U{1680}' || ('\U{2000}' <= c <= '\U{200A}') || c == '\U{202F}' || c == '\U{205F}' || c == '\U{3000}'
    || c == '\n' || c == '\r' || c == '\U{2028}' || c == '\U{2029}'
  }

  predicate AllSpace(s: string)
  {
    forall i :: 0 <= i < |s| ==> IsJsSpace(s[i])
  }

  function TrimStart(s: string): string
  {
    if s != [] && IsJsSpace(s[0]) then TrimStart(s[1..]) else s
  }

  function TrimEnd(s: string): string
  {
    if s != [] && IsJsSpace(s[|s| - 1]) then TrimEnd(s[..|s| - 1]) else s
  }

  /** `s.trim()`. */
  function Trim(s: string): string
  {
    TrimEnd(TrimStart(s))
  }

  /** White space throughout a concatenation is white space throughout each part. */
  lemma AllSpaceConcat(a: string, b: string)
    ensures AllSpace(a + b) <==> AllSpace(a) && AllSpace(b)
  {
    if AllSpace(a) && AllSpace(b) {
      forall k | 0 <= k < |a + b| ensures IsJsSpace((a + b)[k]) {
        if k < |a| { assert (a + b)[k] == a[k]; } else { assert (a + b)[k] == b[k - |a|]; }
      }
    }
    if AllSpace(a + b) {
      forall k | 0 <= k < |a| ensures IsJsSpace(a[k]) { assert a[k] == (a + b)[k]; }
      forall k | 0 <= k < |b| ensures IsJsSpace(b[k]) { assert b[k] == (a + b)[|a| + k]; }
    }
  }

  /** The length of the run of white space `s` starts with. */
  function LeadEnd(s: string): (i: nat)
    ensures i <= |s|
  {
    if s != [] && IsJsSpace(s[0]) then LeadEnd(s[1..]) + 1 else 0
  }

  /** Where the run of white space `s` ends with begins. */
  function TrailStart(s: string): (j: nat)
    ensures j <= |s|
  {
    if s != [] && IsJsSpace(s[|s| - 1]) then TrailStart(s[..|s| - 1]) else |s|
  }

  lemma {:induction false} TrimStartAt(s: string)
    ensures TrimStart(s) == s[LeadEnd(s)..]
    ensures AllSpace(s[..LeadEnd(s)])
  {
    if s != [] && IsJsSpace(s[0]) {
      var i := LeadEnd(s[1..]);
      TrimStartAt(s[1..]);
      assert s[1..][i..] == s[i + 1..];
      assert s[..i + 1] == [s[0]] + s[1..][..i];
      AllSpaceConcat([s[0]], s[1..][..i]);
    }
  }

  lemma {:induction false} TrimEndAt(s: string)
    ensures TrimEnd(s) == s[..TrailStart(s)]
    ensures AllSpace(s[TrailStart(s)..])
  {
    if s != [] && IsJsSpace(s[|s| - 1]) {
      var p := s[..|s| - 1];
      var j := TrailStart(p);
      TrimEndAt(p);
      assert p[..j] == s[..j];
      assert s[j..] == p[j..] + [s[|s| - 1]];
      AllSpaceConcat(p[j..], [s[|s| - 1]]);
    }
  }

  /** `TrimStart` drops a run of white space from the front and stops at the first other character. */
  lemma TrimStartSpec(s: string)
    ensures exists i :: 0 <= i <= |s| && TrimStart(s) == s[i..] && AllSpace(s[..i])
    ensures TrimStart(s) != [] ==> !IsJsSpace(TrimStart(s)[0])
  {
    TrimStartAt(s);
    var i := LeadEnd(s);
    assert 0 <= i <= |s| && TrimStart(s) == s[i..] && AllSpace(s[..i]);
  }

  /** `TrimStart` leaves nothing exactly when the string is all white space. */
  lemma {:induction false} TrimStartEmpty(s: string)
    ensures TrimStart(s) == [] <==> AllSpace(s)
  {
    if s != [] && IsJsSpace(s[0]) {
      TrimStartEmpty(s[1..]);
      assert s == [s[0]] + s[1..];
      AllSpaceConcat([s[0]], s[1..]);
    }
  }

  /** `TrimEnd` drops a run of white space from the back and keeps the first character of what is left. */
  lemma TrimEndSpec(s: string)
    ensures exists j :: 0 <= j <= |s| && TrimEnd(s) == s[..j] && AllSpace(s[j..])
    ensures TrimEnd(s) != [] ==> !IsJsSpace(TrimEnd(s)[|TrimEnd(s)| - 1])
    ensures TrimEnd(s) != [] ==> TrimEnd(s)[0] == s[0]
  {
    TrimEndAt(s);
    var j := TrailStart(s);
    assert 0 <= j <= |s| && TrimEnd(s) == s[..j] && AllSpace(s[j..]);
  }

  /**
   * `trim` removes a run of white space from each end and nothing else: the
   * result is a slice of the input, surrounded only by white space, and
   * neither begins nor ends with white space.
   */
  lemma TrimSpec(s: string)
    ensures exists i, j :: 0 <= i <= j <= |s| && Trim(s) == s[i..j] && AllSpace(s[..i]) && AllSpace(s[j..])
    ensures Trim(s) != [] ==> !IsJsSpace(Trim(s)[0]) && !IsJsSpace(Trim(s)[|Trim(s)| - 1])
  {
    TrimStartSpec(s);
    var i :| 0 <= i <= |s| && TrimStart(s) == s[i..] && AllSpace(s[..i]);
    TrimEndSpec(s[i..]);
    var j :| 0 <= j <= |s[i..]| && TrimEnd(s[i..]) == s[i..][..j] && AllSpace(s[i..][j..]);
    TrimSlice(s, i, j);
  }

  /** The two trimmed ends, put together, as one slice of `s`. */
  lemma TrimSlice(s: string, i: int, j: int)
    requires 0 <= i <= |s| && TrimStart(s) == s[i..]
    requires 0 <= j <= |s| - i && TrimEnd(s[i..]) == s[i..][..j] && AllSpace(s[i..][j..])
    ensures Trim(s) == s[i..i + j] && AllSpace(s[i + j..])
  {
    assert s[i..][..j] == s[i..i + j];
    assert s[i + j..] == s[i..][j..];
  }

  /** The trimmed string is empty exactly when the input is all white space. */
  lemma TrimEmpty(s: string)
    ensures Trim(s) == [] <==> AllSpace(s)
  {
    TrimStartSpec(s);
    TrimStartEmpty(s);
    TrimEndSpec(TrimStart(s));
  }
}
