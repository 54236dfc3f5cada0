/**
 * String operations the backend relies on, stated over Dafny strings (sequences of
 * Unicode scalar values): Go's byte length of a string, `strings.Split` on one
 * character, the first piece of `strings.Split` on a longer separator, and the
 * `%.2f` / `strconv.ParseFloat` pair restricted to integral amounts.
 */
module Text {
  import opened Wrappers

  // ---------------------------------------------------------------------------
  // Go's len(s): the number of bytes of the UTF-8 encoding

  /** Number of bytes UTF-8 uses for `c`. */
  function Utf8Size(c: char): nat {
    if c as int < 0x80 then 1
    else if c as int < 0x800 then 2
    else if c as int < 0x1_0000 then 3
    else 4
  }

  /** `len(s)` in Go: the byte length of the UTF-8 encoding of `s`. */
  function Utf8Len(s: string): (n: nat)
    ensures |s| <= n <= 4 * |s|
    ensures n == 0 <==> s == []
  {
    if s == [] then 0 else Utf8Size(s[0]) + Utf8Len(s[1..])
  }

  predicate IsAscii(s: string) {
    forall i :: 0 <= i < |s| ==> s[i] as int < 0x80
  }

  /** For ASCII text the byte length is the character count. */
  lemma {:induction false} AsciiUtf8Len(s: string)
    requires IsAscii(s)
    ensures Utf8Len(s) == |s|
  {
    if s != [] {
      assert IsAscii(s[1..]) by {
        forall i | 0 <= i < |s[1..]| ensures s[1..][i] as int < 0x80 {
          assert s[1..][i] == s[i + 1];
        }
      }
      AsciiUtf8Len(s[1..]);
    }
  }

  /** A string with a character outside ASCII is longer in bytes than in characters. */
  lemma {:induction false} NonAsciiUtf8Len(s: string, k: nat)
    requires k < |s| && s[k] as int >= 0x80
    ensures Utf8Len(s) > |s|
  {
    if k > 0 {
      NonAsciiUtf8Len(s[1..], k - 1);
    }
  }

  // ---------------------------------------------------------------------------
  // strings.Split(s, string(sep)) for a one-character separator

  /** Glue the pieces back together with `sep` between them (Go's strings.Join). */
  function Join(parts: seq<string>, sep: char): string
    requires |parts| >= 1
  {
    if |parts| == 1 then parts[0] else parts[0] + [sep] + Join(parts[1..], sep)
  }

  /** `strings.Split(s, string(sep))`: the pieces between the occurrences of `sep`. */
  function SplitOn(s: string, sep: char): (parts: seq<string>)
    ensures |parts| >= 1
    ensures forall i :: 0 <= i < |parts| ==> sep !in parts[i]
    ensures Join(parts, sep) == s
    decreases |s|
  {
    if s == [] then [""]
    else
      var rest := SplitOn(s[1..], sep);
      if s[0] == sep then
        assert ([""] + rest)[1..] == rest;
        assert s == [sep] + s[1..];
        [""] + rest
      else
        var parts := [[s[0]] + rest[0]] + rest[1..];
        assert parts[1..] == rest[1..];
        assert s == [s[0]] + s[1..];
        parts
  }

  lemma {:induction false} SplitOnNoSep(a: string, sep: char)
    requires sep !in a
    ensures SplitOn(a, sep) == [a]
    decreases |a|
  {
    if a != [] {
      SplitOnNoSep(a[1..], sep);
      assert [a[0]] + a[1..] == a;
    }
  }

  lemma {:induction false} SplitOnCons(a: string, sep: char, t: string)
    requires sep !in a
    ensures SplitOn(a + [sep] + t, sep) == [a] + SplitOn(t, sep)
    decreases |a|
  {
    var s := a + [sep] + t;
    if a == [] {
      assert s[1..] == t;
    } else {
      assert s[1..] == a[1..] + [sep] + t;
      SplitOnCons(a[1..], sep, t);
      assert [a[0]] + a[1..] == a;
    }
  }

  /** Splitting undoes joining pieces that do not contain the separator. */
  lemma {:induction false} SplitOnJoin(parts: seq<string>, sep: char)
    requires |parts| >= 1
    requires forall i :: 0 <= i < |parts| ==> sep !in parts[i]
    ensures SplitOn(Join(parts, sep), sep) == parts
    decreases |parts|
  {
    if |parts| == 1 {
      SplitOnNoSep(parts[0], sep);
    } else {
      SplitOnJoin(parts[1..], sep);
      SplitOnCons(parts[0], sep, Join(parts[1..], sep));
      assert [parts[0]] + parts[1..] == parts;
    }
  }

  /** Index of the first `c` in `s`, or `|s|` when there is none. */
  function IndexOf(s: string, c: char): (k: nat)
    ensures k <= |s|
    ensures forall j :: 0 <= j < k ==> s[j] != c
    ensures k < |s| ==> s[k] == c
  {
    if s == [] then 0
    else if s[0] == c then 0
    else 1 + IndexOf(s[1..], c)
  }

  lemma IndexOfAfter(a: string, c: char, rest: string)
    requires c !in a
    ensures IndexOf(a + [c] + rest, c) == |a|
  {
    var s := a + [c] + rest;
    assert s[|a|] == c;
    assert forall j :: 0 <= j < |a| ==> s[j] == a[j];
  }

  /**
   * `strings.SplitN(s, string(sep), n)` for n >= 1: at most n pieces, the last one
   * holding the rest of `s` unsplit.
   */
  function SplitN(s: string, sep: char, n: nat): (parts: seq<string>)
    requires n >= 1
    ensures 1 <= |parts| <= n
    ensures Join(parts, sep) == s
    ensures forall i :: 0 <= i < |parts| - 1 ==> sep !in parts[i]
    ensures |parts| < n ==> sep !in parts[|parts| - 1]
    decreases n
  {
    var k := IndexOf(s, sep);
    if n == 1 || k == |s| then [s]
    else
      var rest := SplitN(s[k + 1..], sep, n - 1);
      assert ([s[..k]] + rest)[1..] == rest;
      assert s == s[..k] + [sep] + s[k + 1..];
      [s[..k]] + rest
  }

  /** Splitting at a leading piece without the separator. */
  lemma SplitNCons(a: string, sep: char, rest: string, n: nat)
    requires n >= 2 && sep !in a
    ensures SplitN(a + [sep] + rest, sep, n) == [a] + SplitN(rest, sep, n - 1)
  {
    var s := a + [sep] + rest;
    IndexOfAfter(a, sep, rest);
    assert s[..|a|] == a;
    assert s[|a| + 1..] == rest;
  }

  // ---------------------------------------------------------------------------
  // strings.Split(s, sep)[0] for a longer separator

  /** `sep` occurs in `s` at position `i`. */
  predicate OccursAt(s: string, sep: string, i: nat)
    requires i + |sep| <= |s|
  {
    s[i..i + |sep|] == sep
  }

  /** `strings.Split(s, sep)[0]`: the text before the first occurrence of `sep`, or all of `s`. */
  function BeforeFirst(s: string, sep: string): (r: string)
    requires sep != []
    ensures r <= s
    ensures forall i :: 0 <= i < |r| && i + |sep| <= |s| ==> !OccursAt(s, sep, i)
    ensures r == s || (|r| + |sep| <= |s| && OccursAt(s, sep, |r|))
    decreases |s|
  {
    if |s| < |sep| then s
    else if s[..|sep|] == sep then []
    else
      OccursInTail(s, sep);
      [s[0]] + BeforeFirst(s[1..], sep)
  }

  /** An occurrence after the first character of `s` is one in `s[1..]`, a place to the left. */
  lemma OccursInTail(s: string, sep: string)
    requires s != []
    ensures forall i :: 1 <= i && i + |sep| <= |s| ==> OccursAt(s, sep, i) == OccursAt(s[1..], sep, i - 1)
  {
    forall i | 1 <= i && i + |sep| <= |s| ensures OccursAt(s, sep, i) == OccursAt(s[1..], sep, i - 1) {
      var a, b := s[i..i + |sep|], s[1..][i - 1..i - 1 + |sep|];
      forall j | 0 <= j < |sep| ensures a[j] == b[j] {
        assert a[j] == s[i + j];
      }
      assert a == b;
    }
  }

  /** No occurrence of `sep` starts inside `a` when `a` is followed by `sep`. */
  predicate SplitsCleanly(a: string, sep: string) {
    forall i: nat :: i < |a| ==> !OccursAt(a + sep, sep, i)
  }

  /** Dropping the first character of `a` moves every occurrence one place to the left. */
  lemma OccursAtTail(a: string, sep: string, i: nat)
    requires i + 1 < |a|
    ensures OccursAt(a + sep, sep, i + 1) == OccursAt(a[1..] + sep, sep, i)
  {
    var t, u := a + sep, a[1..] + sep;
    assert t[1..] == u;
    assert t[i + 1..i + 1 + |sep|] == t[1..][i..i + |sep|];
  }

  /** The first piece of `a + sep + b` is `a`, as long as `sep` does not start inside `a`. */
  lemma {:induction false} BeforeFirstJoin(a: string, sep: string, b: string)
    requires sep != []
    requires SplitsCleanly(a, sep)
    ensures BeforeFirst(a + sep + b, sep) == a
    decreases |a|
  {
    var s := a + sep + b;
    if a == [] {
      assert s[..|sep|] == sep;
    } else {
      assert !OccursAt(a + sep, sep, 0);
      assert s[..|sep|] == (a + sep)[0..|sep|];
      assert s[1..] == a[1..] + sep + b;
      forall i: nat | i < |a[1..]| ensures !OccursAt(a[1..] + sep, sep, i) {
        assert !OccursAt(a + sep, sep, i + 1);
        OccursAtTail(a, sep, i);
      }
      BeforeFirstJoin(a[1..], sep, b);
      assert [a[0]] + a[1..] == a;
    }
  }

  /** A text without the separator's first character splits cleanly. */
  lemma NoLeadCharSplitsCleanly(a: string, sep: string)
    requires sep != [] && sep[0] !in a
    ensures SplitsCleanly(a, sep)
  {
    forall i: nat | i < |a| ensures !OccursAt(a + sep, sep, i) {
      assert (a + sep)[i..i + |sep|][0] == a[i];
    }
  }

  // ---------------------------------------------------------------------------
  // Decimal numbers: fmt's "%.2f" of an integral amount and strconv.ParseFloat

  predicate IsDigit(c: char) { '0' as int <= c as int <= '9' as int }

  function DigitValue(c: char): nat
    requires IsDigit(c)
  {
    c as int - '0' as int
  }

  function DigitChar(d: nat): (c: char)
    requires d < 10
    ensures IsDigit(c) && DigitValue(c) == d
  {
    (d + '0' as int) as char
  }

  /** Decimal digits of `n`, most significant first, no leading zeros. */
  function NatToDigits(n: nat): (s: string)
    ensures |s| >= 1
    ensures forall i :: 0 <= i < |s| ==> IsDigit(s[i])
  {
    if n < 10 then [DigitChar(n)] else NatToDigits(n / 10) + [DigitChar(n % 10)]
  }

  /** Value of a string of decimal digits. */
  function DigitsToNat(s: string): nat
    requires forall i :: 0 <= i < |s| ==> IsDigit(s[i])
  {
    if s == [] then 0
    else DigitsToNat(s[..|s| - 1]) * 10 + DigitValue(s[|s| - 1])
  }

  lemma {:induction false} DigitsRoundTrip(n: nat)
    ensures DigitsToNat(NatToDigits(n)) == n
  {
    if n >= 10 {
      var s := NatToDigits(n);
      assert s[..|s| - 1] == NatToDigits(n / 10);
      DigitsRoundTrip(n / 10);
    }
  }

  /** `fmt.Sprintf("%.2f", float64(n))`: an integral amount with two zero decimals. */
  function FormatAmount(n: int): (s: string)
    ensures ' ' !in s
  {
    (if n < 0 then "-" + NatToDigits(-n) else NatToDigits(n)) + ".00"
  }

  /** The unsigned part of ParseAmount: digits, optionally followed by a point and zeros. */
  function ParseUnsigned(body: string): Option<nat>
  {
    var k := IndexOf(body, '.');
    var whole := body[..k];
    var fraction := if k < |body| then body[k + 1..] else [];
    if whole != [] && (forall i :: 0 <= i < |whole| ==> IsDigit(whole[i]))
       && (forall i :: 0 <= i < |fraction| ==> fraction[i] == '0')
    then Some(DigitsToNat(whole))
    else None
  }

  /**
   * `strconv.ParseFloat(s, 64)` for the texts an integral amount can be read from:
   * an optional sign, at least one digit, and optionally a point followed by zeros.
   */
  function ParseAmount(s: string): Option<int>
  {
    if |s| > 0 && (s[0] == '-' || s[0] == '+') then
      match ParseUnsigned(s[1..])
      case Some(v) => Some(if s[0] == '-' then 0 - v as int else v as int)
      case None => None
    else
      match ParseUnsigned(s)
      case Some(v) => Some(v as int)
      case None => None
  }

  lemma ParseUnsignedRoundTrip(n: nat)
    ensures ParseUnsigned(NatToDigits(n) + ".00") == Some(n)
  {
    var digits := NatToDigits(n);
    var body := digits + ".00";
    var k := IndexOf(body, '.');
    assert body[|digits|] == '.';
    assert forall j :: 0 <= j < |digits| ==> body[j] == digits[j] && IsDigit(body[j]);
    assert k == |digits|;
    assert body[..k] == digits;
    assert body[k + 1..] == "00";
    DigitsRoundTrip(n);
  }

  lemma SignedDigitsRoundTrip(s: string, m: nat)
    requires s == "-" + (NatToDigits(m) + ".00")
    ensures ParseAmount(s) == Some(-(m as int))
  {
    var body := NatToDigits(m) + ".00";
    assert s[0] == '-' && s[1..] == body;
    ParseUnsignedRoundTrip(m);
  }

  lemma NegativeAmountRoundTrip(n: int)
    requires n < 0
    ensures ParseAmount(FormatAmount(n)) == Some(n)
  {
    SignedDigitsRoundTrip(FormatAmount(n), -n);
  }

  lemma UnsignedAmountRoundTrip(n: int)
    requires n >= 0
    ensures ParseAmount(FormatAmount(n)) == Some(n)
  {
    var digits := NatToDigits(n);
    var s := FormatAmount(n);
    assert s == digits + ".00";
    assert s[0] == digits[0] && IsDigit(digits[0]);
    ParseUnsignedRoundTrip(n);
  }

  /** Reading back what "%.2f" printed gives the amount again. */
  lemma AmountRoundTrip(n: int)
    ensures ParseAmount(FormatAmount(n)) == Some(n)
  {
    if n < 0 {
      NegativeAmountRoundTrip(n);
    } else {
      UnsignedAmountRoundTrip(n);
    }
  }
}
