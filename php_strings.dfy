/**
  The PHP string built-ins the feed check depends on, written out explicitly:
  `explode` and `implode` with a one-character delimiter, `empty()` applied to a
  string, the `(int)` cast of a string on a 64-bit build, and the decimal text
  PHP produces when an integer is concatenated to a string.
 */
module PhpStrings {

  /** PHP_INT_MIN and PHP_INT_MAX on a 64-bit build. */
  const IntMin: int := -0x8000_0000_0000_0000
  const IntMax: int := 0x7FFF_FFFF_FFFF_FFFF

  /** The smallest magnitude that the correctly rounded decimal-to-double
      conversion turns into infinity: 2^1024 - 2^970, halfway between the
      largest finite double and 2^1024 (a 309-digit number). */
  const DoubleOverflow: nat := 0xFFFF_FFFF_FFFF_FC00_0000_0000_0000_0000_0000_0000_0000_0000_0000_0000_0000_0000_0000_0000_0000_0000_0000_0000_0000_0000_0000_0000_0000_0000_0000_0000_0000_0000_0000_0000_0000_0000_0000_0000_0000_0000_0000_0000_0000_0000_0000_0000_0000_0000_0000_0000_0000_0000_0000_0000_0000_0000_0000_0000_0000_0000_0000_0000_0000_0000

  // ---------------------------------------------------------------------------
  // explode / implode

  /** The pieces of `[c] + s`, given the pieces `parts` of `s`: a delimiter
      starts a new, empty first piece; any other character joins the first piece. */
  function Prepend(d: char, c: char, parts: seq<string>): (r: seq<string>)
    requires |parts| >= 1
    ensures |r| >= 1
  {
    if c == d then [""] + parts else [[c] + parts[0]] + parts[1..]
  }

  /** `explode(d, s)`: the pieces of `s` between occurrences of `d`; there is
      always at least one. */
  function Explode(d: char, s: string): (parts: seq<string>)
    ensures |parts| >= 1
    decreases |s|
  {
    if s == [] then [""] else Prepend(d, s[0], Explode(d, s[1..]))
  }

  /** One step of `explode`: how the first character extends the pieces of the rest. */
  lemma ExplodeCons(d: char, c: char, s: string)
    ensures Explode(d, [c] + s) == Prepend(d, c, Explode(d, s))
  {
    assert ([c] + s)[0] == c && ([c] + s)[1..] == s;
  }

  /** Prepending a character only touches the first piece, so it commutes
      with appending further pieces. */
  lemma PrependAppend(d: char, c: char, front: seq<string>, back: seq<string>)
    requires |front| >= 1
    ensures Prepend(d, c, front + back) == Prepend(d, c, front) + back
  {
    if c == d {
      assert [""] + (front + back) == ([""] + front) + back;
    } else {
      assert (front + back)[0] == front[0];
      assert (front + back)[1..] == front[1..] + back;
      assert [[c] + front[0]] + (front[1..] + back) == ([[c] + front[0]] + front[1..]) + back;
    }
  }

  /** No piece contains the delimiter. */
  lemma {:induction false} ExplodePieces(d: char, s: string)
    ensures forall i :: 0 <= i < |Explode(d, s)| ==> d !in Explode(d, s)[i]
    decreases |s|
  {
    if s != [] {
      ExplodePieces(d, s[1..]);
      ExplodeCons(d, s[0], s[1..]);
      assert s == [s[0]] + s[1..];
      var rest := Explode(d, s[1..]);
      if s[0] != d {
        assert d !in [s[0]] + rest[0];
      }
    }
  }

  /** There is one more piece than there are delimiters. */
  lemma {:induction false} ExplodeLength(d: char, s: string)
    ensures |Explode(d, s)| == multiset(s)[d] + 1
    decreases |s|
  {
    if s != [] {
      ExplodeLength(d, s[1..]);
      ExplodeCons(d, s[0], s[1..]);
      assert s == [s[0]] + s[1..];
      assert multiset(s) == multiset([s[0]]) + multiset(s[1..]);
    }
  }

  /** `implode(d, parts)`: the pieces joined with `d` between neighbours. */
  function Implode(d: char, parts: seq<string>): string
    requires |parts| >= 1
  {
    if |parts| == 1 then parts[0] else parts[0] + [d] + Implode(d, parts[1..])
  }

  /** Joining the pieces of `[c] + s` gives `c` followed by the joined pieces of `s`. */
  lemma ImplodePrepend(d: char, c: char, parts: seq<string>)
    requires |parts| >= 1
    ensures Implode(d, Prepend(d, c, parts)) == [c] + Implode(d, parts)
  {
    var r := Prepend(d, c, parts);
    if c == d {
      assert r[0] == "" && r[1..] == parts;
      assert Implode(d, r) == "" + [d] + Implode(d, parts);
      assert "" + [d] + Implode(d, parts) == [c] + Implode(d, parts);
    } else if |parts| > 1 {
      assert r[0] == [c] + parts[0] && r[1..] == parts[1..];
      assert Implode(d, r) == [c] + parts[0] + [d] + Implode(d, parts[1..]);
      assert [c] + parts[0] + [d] + Implode(d, parts[1..]) == [c] + (parts[0] + [d] + Implode(d, parts[1..]));
    }
  }

  /** Joining the pieces again gives back the exploded text. */
  lemma {:induction false} ImplodeExplode(d: char, s: string)
    ensures Implode(d, Explode(d, s)) == s
    decreases |s|
  {
    if s != [] {
      ImplodeExplode(d, s[1..]);
      ImplodePrepend(d, s[0], Explode(d, s[1..]));
      assert s == [s[0]] + s[1..];
    }
  }

  /** A text without the delimiter explodes into itself alone. */
  lemma {:induction false} ExplodeNoDelimiter(d: char, s: string)
    requires d !in s
    ensures Explode(d, s) == [s]
    decreases |s|
  {
    if s != [] {
      assert d !in s[1..] by {
        forall i | 0 <= i < |s[1..]| ensures s[1..][i] != d {
          assert s[1..][i] == s[i + 1];
        }
      }
      ExplodeNoDelimiter(d, s[1..]);
      assert s == [s[0]] + s[1..];
    }
  }

  /** Exploding `s + d + t` splits `s` and `t` independently. */
  lemma {:induction false} ExplodeAppend(d: char, s: string, t: string)
    ensures Explode(d, s + [d] + t) == Explode(d, s) + Explode(d, t)
    decreases |s|
  {
    if s == [] {
      assert s + [d] + t == [d] + t;
      ExplodeCons(d, d, t);
    } else {
      var c := s[0];
      var tail := s[1..] + [d] + t;
      assert s + [d] + t == [c] + tail;
      assert s == [c] + s[1..];
      ExplodeAppend(d, s[1..], t);
      ExplodeCons(d, c, tail);
      ExplodeCons(d, c, s[1..]);
      PrependAppend(d, c, Explode(d, s[1..]), Explode(d, t));
    }
  }

  /** Exploding joined pieces that do not contain the delimiter gives the pieces back. */
  lemma {:induction false} ExplodeImplode(d: char, parts: seq<string>)
    requires |parts| >= 1
    requires forall i :: 0 <= i < |parts| ==> d !in parts[i]
    ensures Explode(d, Implode(d, parts)) == parts
    decreases |parts|
  {
    ExplodeNoDelimiter(d, parts[0]);
    if |parts| > 1 {
      var more := parts[1..];
      assert forall i :: 0 <= i < |more| ==> more[i] == parts[i + 1];
      ExplodeImplode(d, more);
      assert Implode(d, parts) == parts[0] + [d] + Implode(d, more);
      ExplodeAppend(d, parts[0], Implode(d, more));
      assert parts == [parts[0]] + more;
    }
  }

  // ---------------------------------------------------------------------------
  // empty()

  /** PHP `empty()` applied to a string: true for "" and for "0", for no other text. */
  predicate IsEmpty(s: string)
  {
    s == "" || s == "0"
  }

  // ---------------------------------------------------------------------------
  // Characters

  /** The characters PHP's numeric-string scanner skips before a number. */
  predicate IsWhitespace(c: char)
  {
    c == ' ' || c == '\t' || c == '\n' || c == '\r' || c == '\U{000B}' || c == '\U{000C}'
  }

  predicate IsDigit(c: char)
  {
    '0' <= c <= '9'
  }

  predicate AllDigits(s: string)
  {
    forall i :: 0 <= i < |s| ==> IsDigit(s[i])
  }

  predicate NoDigit(s: string)
  {
    forall i :: 0 <= i < |s| ==> !IsDigit(s[i])
  }

  function DigitValue(c: char): (v: nat)
    requires IsDigit(c)
    ensures v < 10
  {
    c as int - '0' as int
  }

  function DigitChar(v: nat): (c: char)
    requires v < 10
    ensures IsDigit(c) && DigitValue(c) == v
  {
    ('0' as int + v) as char
  }

  // ---------------------------------------------------------------------------
  // Integer to decimal text

  /** The decimal digits of `n`, most significant first, without leading zeros. */
  function NatToDecimal(n: nat): (s: string)
    ensures |s| >= 1 && AllDigits(s)
    ensures |s| > 1 ==> s[0] != '0'
    decreases n
  {
    if n < 10 then [DigitChar(n)] else NatToDecimal(n / 10) + [DigitChar(n % 10)]
  }

  /** The text PHP produces for an integer in a string context (`'?page=' . $page`). */
  function FormatInt(n: int): (s: string)
    ensures |s| >= 1 && (s[0] == '-' <==> n < 0)
  {
    if n < 0 then "-" + NatToDecimal(-n) else NatToDecimal(n)
  }

  // ---------------------------------------------------------------------------
  // The (int) cast of a string

  /** The text left after the leading whitespace of `s`. */
  function SkipWhitespace(s: string): (t: string)
    ensures |t| <= |s|
    decreases |s|
  {
    if |s| > 0 && IsWhitespace(s[0]) then SkipWhitespace(s[1..]) else s
  }

  /** The length of the longest prefix of `s` made of digits. */
  function LeadingDigits(s: string): (n: nat)
    ensures n <= |s|
    decreases |s|
  {
    if |s| > 0 && IsDigit(s[0]) then 1 + LeadingDigits(s[1..]) else 0
  }

  /** The value of a string of decimal digits. */
  function DecimalValue(ds: string): nat
    requires AllDigits(ds)
    decreases |ds|
  {
    if ds == [] then 0 else DecimalValue(ds[..|ds| - 1]) * 10 + DigitValue(ds[|ds| - 1])
  }

  /** The prefix `LeadingDigits` measures is made of digits. */
  lemma {:induction false} LeadingDigitsAreDigits(s: string)
    ensures AllDigits(s[..LeadingDigits(s)])
    decreases |s|
  {
    if |s| > 0 && IsDigit(s[0]) {
      LeadingDigitsAreDigits(s[1..]);
      assert s[..LeadingDigits(s)] == [s[0]] + s[1..][..LeadingDigits(s[1..])];
    }
  }

  /** Clamping to the 64-bit range, which is how PHP turns a finite double
      outside that range into an integer. */
  function Saturate(v: int): (r: int)
    ensures IntMin <= r <= IntMax
  {
    if v < IntMin then IntMin else if v > IntMax then IntMax else v
  }

  /** The integer PHP obtains from the signed value `v` of an integer string.
      Within the 64-bit range it is `v` itself. Beyond it PHP reads the string
      as a double instead; a finite double is clamped to the 64-bit bounds,
      and one that overflowed to infinity becomes 0. */
  function IntOfNumeric(v: int): (r: int)
    ensures IntMin <= r <= IntMax
    ensures IntMin <= v <= IntMax ==> r == v
  {
    if v >= DoubleOverflow || -v >= DoubleOverflow then 0 else Saturate(v)
  }

  /** The value of the digit run `u` starts with (0 when it starts with no digit). */
  function LeadingValue(u: string): nat
  {
    LeadingDigitsAreDigits(u);
    DecimalValue(u[..LeadingDigits(u)])
  }

  /** PHP's `(int)` cast of a string: optional leading whitespace, an optional
      sign, then the longest run of digits; 0 when there are no digits; a
      value beyond the 64-bit range goes through `IntOfNumeric`. */
  function ParseLeadingInt(s: string): (r: int)
    ensures IntMin <= r <= IntMax
  {
    var t := SkipWhitespace(s);
    if |t| > 0 && t[0] == '-' then IntOfNumeric(-(LeadingValue(t[1..]) as int))
    else if |t| > 0 && t[0] == '+' then IntOfNumeric(LeadingValue(t[1..]))
    else IntOfNumeric(LeadingValue(t))
  }

  // ---------------------------------------------------------------------------
  // Properties of the cast

  /** Reading back the digits of `n` gives `n`. */
  lemma {:induction false} DecimalValueOfNat(n: nat)
    ensures DecimalValue(NatToDecimal(n)) == n
    decreases n
  {
    var s := NatToDecimal(n);
    if n >= 10 {
      DecimalValueOfNat(n / 10);
      assert s[..|s| - 1] == NatToDecimal(n / 10);
    }
  }

  /** Different integers have different decimal texts. */
  lemma FormatIntInjective(n: int, m: int)
    requires FormatInt(n) == FormatInt(m)
    ensures n == m
  {
    var a := if n < 0 then -n else n;
    var b := if m < 0 then -m else m;
    assert (n < 0) == (m < 0);
    if n < 0 {
      assert NatToDecimal(a) == FormatInt(n)[1..] == FormatInt(m)[1..] == NatToDecimal(b);
    }
    DecimalValueOfNat(a);
    DecimalValueOfNat(b);
  }

  /** The digit run of `ds + rest` is exactly `ds` when `rest` does not begin with a digit. */
  lemma {:induction false} LeadingDigitsOfDigits(ds: string, rest: string)
    requires AllDigits(ds)
    requires rest == [] || !IsDigit(rest[0])
    ensures LeadingDigits(ds + rest) == |ds|
    decreases |ds|
  {
    if ds != [] {
      assert (ds + rest)[0] == ds[0];
      assert (ds + rest)[1..] == ds[1..] + rest;
      LeadingDigitsOfDigits(ds[1..], rest);
    }
  }

  /** The digit run read from `ds + rest` is `ds` when `rest` does not begin with a digit. */
  lemma LeadingValueOfDigits(ds: string, rest: string)
    requires AllDigits(ds)
    requires rest == [] || !IsDigit(rest[0])
    ensures LeadingValue(ds + rest) == DecimalValue(ds)
  {
    LeadingDigitsOfDigits(ds, rest);
    assert (ds + rest)[..|ds|] == ds;
  }

  /** A text that starts with a digit or a sign has no leading whitespace to skip. */
  lemma SkipWhitespaceOfSignOrDigit(s: string)
    requires s != [] && (IsDigit(s[0]) || s[0] == '-' || s[0] == '+')
    ensures SkipWhitespace(s) == s
  {
  }

  /** A digit run followed by non-digit text casts to the integer PHP makes of
      its value: the value itself within the 64-bit range. */
  lemma ParseLeadingIntOfDigits(ds: string, rest: string)
    requires ds != [] && AllDigits(ds)
    requires rest == [] || !IsDigit(rest[0])
    ensures ParseLeadingInt(ds + rest) == IntOfNumeric(DecimalValue(ds))
  {
    var s := ds + rest;
    assert s[0] == ds[0];
    SkipWhitespaceOfSignOrDigit(s);
    LeadingValueOfDigits(ds, rest);
  }

  /** The same run behind a minus sign casts as the negated value. */
  lemma ParseLeadingIntOfNegatedDigits(ds: string, rest: string)
    requires AllDigits(ds)
    requires rest == [] || !IsDigit(rest[0])
    ensures ParseLeadingInt("-" + ds + rest) == IntOfNumeric(-(DecimalValue(ds) as int))
  {
    var m := "-" + ds + rest;
    assert m[0] == '-' && m[1..] == ds + rest;
    SkipWhitespaceOfSignOrDigit(m);
    assert ParseLeadingInt(m) == IntOfNumeric(-(LeadingValue(m[1..]) as int));
    LeadingValueOfDigits(ds, rest);
  }

  /** The same run behind a plus sign casts as the run without it. */
  lemma ParseLeadingIntOfPlusDigits(ds: string, rest: string)
    requires AllDigits(ds)
    requires rest == [] || !IsDigit(rest[0])
    ensures ParseLeadingInt("+" + ds + rest) == IntOfNumeric(DecimalValue(ds))
  {
    var m := "+" + ds + rest;
    assert m[0] == '+' && m[1..] == ds + rest;
    SkipWhitespaceOfSignOrDigit(m);
    assert ParseLeadingInt(m) == IntOfNumeric(LeadingValue(m[1..]));
    LeadingValueOfDigits(ds, rest);
  }

  /** The cast reads back the decimal text of any 64-bit integer, whatever
      non-digit text follows it. */
  lemma ParseLeadingIntOfFormatted(n: int, rest: string)
    requires IntMin <= n <= IntMax
    requires rest == [] || !IsDigit(rest[0])
    ensures ParseLeadingInt(FormatInt(n) + rest) == n
  {
    var magnitude := if n < 0 then -n else n;
    var digits := NatToDecimal(magnitude);
    DecimalValueOfNat(magnitude);
    if n < 0 {
      assert FormatInt(n) + rest == "-" + digits + rest;
      ParseLeadingIntOfNegatedDigits(digits, rest);
    } else {
      ParseLeadingIntOfDigits(digits, rest);
    }
  }

  /** A digit run too large for a 64-bit integer casts to `PHP_INT_MAX`, or
      to 0 when it is too large even for a double. */
  lemma ParseLeadingIntSaturatesHigh(ds: string, rest: string)
    requires AllDigits(ds)
    requires rest == [] || !IsDigit(rest[0])
    requires DecimalValue(ds) > IntMax
    ensures ParseLeadingInt(ds + rest) == if DecimalValue(ds) < DoubleOverflow then IntMax else 0
  {
    assert ds != [];
    ParseLeadingIntOfDigits(ds, rest);
  }

  /** A negative digit run too large for a 64-bit integer casts to
      `PHP_INT_MIN`, or to 0 when it is too large even for a double. */
  lemma ParseLeadingIntSaturatesLow(ds: string, rest: string)
    requires AllDigits(ds)
    requires rest == [] || !IsDigit(rest[0])
    requires DecimalValue(ds) > -IntMin
    ensures ParseLeadingInt("-" + ds + rest) == if DecimalValue(ds) < DoubleOverflow then IntMin else 0
  {
    ParseLeadingIntOfNegatedDigits(ds, rest);
  }

  /** A text with no digit at all casts to 0. */
  lemma ParseLeadingIntNoDigits(s: string)
    requires NoDigit(s)
    ensures ParseLeadingInt(s) == 0
  {
    var t := SkipWhitespace(s);
    SkipWhitespaceIsSuffix(s);
    if |t| > 0 {
      assert t[0] == s[|s| - |t|];
      if |t| > 1 {
        assert t[1..][0] == s[|s| - |t| + 1];
      }
    }
    assert LeadingDigits(t) == 0;
    assert |t| > 0 ==> LeadingDigits(t[1..]) == 0;
  }

  /** A text that, after its leading whitespace, starts neither with a digit
      nor with a sign followed by a digit casts to 0, whatever digits come
      later (`"<span>5</span>"`, `"page 5"`, `"-x1"`). */
  lemma ParseLeadingIntNoLeadingDigit(s: string)
    requires var t := SkipWhitespace(s);
      t == [] || (!IsDigit(t[0]) && t[0] != '-' && t[0] != '+') ||
      ((t[0] == '-' || t[0] == '+') && (|t| == 1 || !IsDigit(t[1])))
    ensures ParseLeadingInt(s) == 0
  {
    var t := SkipWhitespace(s);
    if |t| > 0 && (t[0] == '-' || t[0] == '+') {
      assert |t| > 1 ==> t[1..][0] == t[1];
      assert LeadingValue(t[1..]) == 0;
    } else {
      assert LeadingValue(t) == 0;
    }
  }

  /** What `SkipWhitespace` leaves is a suffix of its input. */
  lemma {:induction false} SkipWhitespaceIsSuffix(s: string)
    ensures SkipWhitespace(s) == s[|s| - |SkipWhitespace(s)|..]
    decreases |s|
  {
    if |s| > 0 && IsWhitespace(s[0]) {
      SkipWhitespaceIsSuffix(s[1..]);
      assert s[1..][|s| - 1 - |SkipWhitespace(s)|..] == s[|s| - |SkipWhitespace(s)|..];
    }
  }

  /** Leading whitespace does not change the cast. */
  lemma ParseLeadingIntSkipsWhitespace(c: char, s: string)
    requires IsWhitespace(c)
    ensures ParseLeadingInt([c] + s) == ParseLeadingInt(s)
  {
    assert ([c] + s)[1..] == s;
  }
}
