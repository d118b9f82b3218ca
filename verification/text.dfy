/**
 * The handful of Rust `str` operations the site generator relies on:
 * `starts_with`, `ends_with`, `strip_prefix`, `strip_suffix`, `split_once`,
 * `split` on a character, and `str::parse::<usize>`.
 */
module Text {
  import opened Wrappers

  predicate StartsWith(s: string, p: string) {
    |p| <= |s| && s[..|p|] == p
  }

  predicate EndsWith(s: string, q: string) {
    |q| <= |s| && s[|s| - |q|..] == q
  }

  /** `s.strip_prefix(p)`: the rest of `s` after `p`, if `s` begins with `p`. */
  function StripPrefix(s: string, p: string): (r: Option<string>)
    ensures r.Some? <==> StartsWith(s, p)
    ensures r.Some? ==> p + r.value == s
  {
    if StartsWith(s, p) then Some(s[|p|..]) else None
  }

  /** `s.strip_suffix(q)`: what comes before `q`, if `s` ends with `q`. */
  function StripSuffix(s: string, q: string): (r: Option<string>)
    ensures r.Some? <==> EndsWith(s, q)
    ensures r.Some? ==> r.value + q == s
  {
    if EndsWith(s, q) then Some(s[..|s| - |q|]) else None
  }

  lemma StripPrefixOfConcat(p: string, t: string)
    ensures StripPrefix(p + t, p) == Some(t)
  {
    assert (p + t)[..|p|] == p;
    assert (p + t)[|p|..] == t;
  }

  /** Position of the first `c` in `s`. */
  function IndexOf(s: string, c: char): (r: Option<nat>)
    ensures r.Some? ==> r.value < |s| && s[r.value] == c && c !in s[..r.value]
    ensures r.None? ==> c !in s
  {
    if |s| == 0 then None
    else if s[0] == c then Some(0)
    else match IndexOf(s[1..], c)
      case None => None
      case Some(i) =>
        assert s[..i + 1] == [s[0]] + s[1..][..i];
        Some(i + 1)
  }

  /** `s.split_once(c)`: the parts before and after the first `c`. */
  function SplitOnce(s: string, c: char): (r: Option<(string, string)>)
    ensures r.Some? <==> c in s
    ensures r.Some? ==> r.value.0 + [c] + r.value.1 == s && c !in r.value.0
  {
    match IndexOf(s, c)
    case None => None
    case Some(i) =>
      assert s[..i] + [c] + s[i + 1..] == s;
      Some((s[..i], s[i + 1..]))
  }

  lemma SplitOnceAtFirst(a: string, c: char, b: string)
    requires c !in a
    ensures SplitOnce(a + [c] + b, c) == Some((a, b))
  {
    var s := a + [c] + b;
    var r := SplitOnce(s, c);
    assert s[|a|] == c;
    assert r.Some?;
    var (x, y) := r.value;
    assert x == s[..|x|] == a;
    assert y == s[|a| + 1..] == b;
  }

  /** The parts joined by `sep`, as `[..].join(sep)` does. */
  function Join(parts: seq<string>, sep: string): string
  {
    if |parts| == 0 then ""
    else if |parts| == 1 then parts[0]
    else parts[0] + sep + Join(parts[1..], sep)
  }

  /** Concatenation regroups freely; stated once so that larger proofs need not rediscover it. */
  lemma AppendAssoc<T>(a: seq<T>, b: seq<T>, c: seq<T>)
    ensures a + b + c == a + (b + c)
  {
  }

  lemma {:induction false} JoinSnoc(parts: seq<string>, sep: string, last: string)
    requires |parts| >= 1
    ensures Join(parts + [last], sep) == Join(parts, sep) + sep + last
    decreases |parts|
  {
    if |parts| == 1 {
      assert Join(parts + [last], sep) == parts[0] + sep + Join([last], sep);
    } else {
      assert (parts + [last])[1..] == parts[1..] + [last];
      JoinSnoc(parts[1..], sep, last);
    }
  }

  lemma {:induction false} JoinAvoids(parts: seq<string>, sep: string, c: char)
    requires c !in sep
    requires forall i :: 0 <= i < |parts| ==> c !in parts[i]
    ensures c !in Join(parts, sep)
    decreases |parts|
  {
    if |parts| > 1 {
      JoinAvoids(parts[1..], sep, c);
    }
  }

  /** `s.split(c)`: the maximal `c`-free pieces, always at least one. */
  function Split(s: string, c: char): (parts: seq<string>)
    ensures |parts| >= 1
    ensures forall i :: 0 <= i < |parts| ==> c !in parts[i]
    ensures Join(parts, [c]) == s
    decreases |s|
  {
    match SplitOnce(s, c)
    case None => [s]
    case Some((head, tail)) => [head] + Split(tail, c)
  }

  /** Splitting undoes joining with the same separator. */
  lemma {:induction false} SplitJoin(parts: seq<string>, c: char)
    requires |parts| >= 1
    requires forall i :: 0 <= i < |parts| ==> c !in parts[i]
    ensures Split(Join(parts, [c]), c) == parts
    decreases |parts|
  {
    if |parts| == 1 {
      assert Join(parts, [c]) == parts[0];
    } else {
      var rest := Join(parts[1..], [c]);
      assert Join(parts, [c]) == parts[0] + [c] + rest;
      SplitOnceAtFirst(parts[0], c, rest);
      SplitJoin(parts[1..], c);
    }
  }

  // ---- `str::parse::<usize>` ----

  /** The largest `usize` on the 64-bit targets the generator runs on. */
  const USIZE_MAX: nat := 0xFFFF_FFFF_FFFF_FFFF

  predicate IsDigit(ch: char) {
    '0' <= ch <= '9'
  }

  predicate AllDigits(d: string) {
    forall i :: 0 <= i < |d| ==> IsDigit(d[i])
  }

  /** The value of a run of decimal digits, most significant first. */
  function DigitsValue(d: string): nat
    requires AllDigits(d)
  {
    if |d| == 0 then 0
    else DigitsValue(d[..|d| - 1]) * 10 + (d[|d| - 1] as int - '0' as int)
  }

  /** A run of `0` digits, possibly empty. */
  predicate Zeros(z: string) {
    forall i :: 0 <= i < |z| ==> z[i] == '0'
  }

  /**
   * `s.parse::<usize>()`: an optional `+`, then at least one decimal digit,
   * and a value that fits in a `usize`; anything else (an empty string, a
   * lone sign, a `-`, any other character, overflow) is an error. An accepted
   * text is the value's decimal rendering behind leading zeros and an optional `+`.
   */
  function ParseUsize(s: string): (r: Option<nat>)
    ensures r.Some? ==> r.value <= USIZE_MAX
    ensures r.Some? ==> exists z :: Zeros(z) && (s == z + Decimal(r.value) || s == "+" + z + Decimal(r.value))
  {
    var digits := if |s| > 0 && s[0] == '+' then s[1..] else s;
    if |digits| > 0 && AllDigits(digits) && DigitsValue(digits) <= USIZE_MAX then
      LeadingZeros(digits);
      var z := digits[..|digits| - |Decimal(DigitsValue(digits))|];
      assert s == z + Decimal(DigitsValue(digits)) || s == "+" + z + Decimal(DigitsValue(digits));
      Some(DigitsValue(digits))
    else None
  }

  /** Every non-empty digit run is some zeros followed by the canonical rendering of its value. */
  lemma {:induction false} LeadingZeros(d: string)
    requires |d| > 0 && AllDigits(d)
    ensures |Decimal(DigitsValue(d))| <= |d|
    ensures Zeros(d[..|d| - |Decimal(DigitsValue(d))|])
    ensures d == d[..|d| - |Decimal(DigitsValue(d))|] + Decimal(DigitsValue(d))
  {
    var front := d[..|d| - 1];
    var c := d[|d| - 1];
    assert AllDigits(front);
    assert d == front + [c];
    var high := DigitsValue(front);
    var low := c as int - '0' as int;
    var v := DigitsValue(d);
    assert v == high * 10 + low;
    LastDigit(high, low);
    if high == 0 {
      ZeroValue(front);
      assert Decimal(v) == [c];
    } else {
      assert |front| > 0;
      LeadingZeros(front);
      assert Decimal(v) == Decimal(high) + [c];
      var k := |front| - |Decimal(high)|;
      assert d[..k] == front[..k];
    }
  }

  /** Appending a digit: the value divided by ten is the old value, and the remainder is the digit. */
  lemma LastDigit(high: nat, low: int)
    requires 0 <= low < 10
    ensures (high * 10 + low) / 10 == high && (high * 10 + low) % 10 == low
    ensures high * 10 + low < 10 <==> high == 0
  {
  }

  /** A digit run of value zero is all zeros. */
  lemma {:induction false} ZeroValue(d: string)
    requires AllDigits(d) && DigitsValue(d) == 0
    ensures Zeros(d)
  {
    if |d| > 0 {
      assert AllDigits(d[..|d| - 1]);
      ZeroValue(d[..|d| - 1]);
    }
  }

  /** Leading zeros do not change the value of a digit run. */
  lemma {:induction false} ZerosValue(z: string, d: string)
    requires Zeros(z) && AllDigits(d)
    ensures AllDigits(z + d) && DigitsValue(z + d) == DigitsValue(d)
    decreases |z| + |d|
  {
    if |d| == 0 {
      assert z + d == z;
      AllZerosValue(z);
    } else {
      assert (z + d)[..|z + d| - 1] == z + d[..|d| - 1];
      assert AllDigits(d[..|d| - 1]);
      ZerosValue(z, d[..|d| - 1]);
    }
  }

  lemma {:induction false} AllZerosValue(z: string)
    requires Zeros(z)
    ensures AllDigits(z) && DigitsValue(z) == 0
  {
    if |z| > 0 {
      AllZerosValue(z[..|z| - 1]);
    }
  }

  /** The canonical decimal rendering of `n` (what `n.to_string()` gives). */
  function Decimal(n: nat): (d: string)
    ensures |d| >= 1 && AllDigits(d)
  {
    var last := ('0' as int + n % 10) as char;
    if n < 10 then [last] else Decimal(n / 10) + [last]
  }

  lemma {:induction false} DecimalValue(n: nat)
    ensures DigitsValue(Decimal(n)) == n
  {
    var d := Decimal(n);
    if n >= 10 {
      DecimalValue(n / 10);
      assert d[..|d| - 1] == Decimal(n / 10);
    }
  }

  /** Parsing the decimal rendering of any `usize` gives the number back, with or without `+`. */
  lemma ParseDecimal(n: nat)
    requires n <= USIZE_MAX
    ensures ParseUsize(Decimal(n)) == Some(n)
    ensures ParseUsize("+" + Decimal(n)) == Some(n)
  {
    DecimalValue(n);
    ParseDigits(Decimal(n));
  }

  /** Leading zeros are accepted too: `007` parses to 7. */
  lemma ParsePadded(n: nat, z: string)
    requires n <= USIZE_MAX && Zeros(z)
    ensures ParseUsize(z + Decimal(n)) == Some(n)
    ensures ParseUsize("+" + z + Decimal(n)) == Some(n)
  {
    DecimalValue(n);
    ZerosValue(z, Decimal(n));
    ParseDigits(z + Decimal(n));
    AppendAssoc("+", z, Decimal(n));
  }

  /** A non-empty digit run of a value that fits is accepted as that value, with or without `+`. */
  lemma ParseDigits(d: string)
    requires |d| > 0 && AllDigits(d) && DigitsValue(d) <= USIZE_MAX
    ensures ParseUsize(d) == Some(DigitsValue(d))
    ensures ParseUsize("+" + d) == Some(DigitsValue(d))
  {
    ParseUnsigned(d);
    ParseSigned(d);
  }

  lemma ParseUnsigned(d: string)
    requires |d| > 0 && AllDigits(d) && DigitsValue(d) <= USIZE_MAX
    ensures ParseUsize(d) == Some(DigitsValue(d))
  {
    assert d[0] != '+';
  }

  lemma ParseSigned(d: string)
    requires |d| > 0 && AllDigits(d) && DigitsValue(d) <= USIZE_MAX
    ensures ParseUsize("+" + d) == Some(DigitsValue(d))
  {
    var s := "+" + d;
    assert s[0] == '+';
    assert s[1..] == d;
  }

  /** A run of digits whose value does not fit in a `usize` is rejected, with or without `+`. */
  lemma ParseRejectsOverflow(d: string)
    requires |d| > 0 && AllDigits(d) && DigitsValue(d) > USIZE_MAX
    ensures ParseUsize(d) == None
    ensures ParseUsize("+" + d) == None
  {
    assert d[0] != '+';
    assert ("+" + d)[1..] == d;
  }

  /** Any character other than a digit, except a `+` in front, makes the text unparsable. */
  lemma ParseRejectsNonDigit(s: string, i: nat)
    requires i < |s| && !IsDigit(s[i]) && !(i == 0 && s[i] == '+')
    ensures ParseUsize(s) == None
  {
    if |s| > 0 && s[0] == '+' {
      assert s[1..][i - 1] == s[i];
    }
  }

  /** A leading `-` is never accepted for an unsigned number. */
  lemma ParseRejectsMinus(s: string)
    ensures ParseUsize("-" + s) == None
  {
    assert ("-" + s)[0] == '-';
  }
}
