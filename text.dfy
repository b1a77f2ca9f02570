/**
 * The pieces of Go's `strings`, `strconv` and `fmt` that the core relies on, over `seq<char>`:
 * decimal printing (`%d`, `%02d`) and parsing (`strconv.Atoi`, `strconv.ParseUint(s, 10, 0)`),
 * `strings.Trim` with a one-character cutset, `strings.Split` on one character, and
 * `strings.Contains`.
 */
module Text {
  import opened Wrappers
  import opened Ints

  predicate IsDigit(c: char) { '0' <= c <= '9' }

  predicate AllDigits(s: string) { forall i :: 0 <= i < |s| ==> IsDigit(s[i]) }

  function DigitChar(d: nat): (c: char)
    requires d < 10
    ensures IsDigit(c)
  {
    ('0' as int + d) as char
  }

  function DigitValue(c: char): (d: nat)
    requires IsDigit(c)
    ensures d < 10
  {
    c as int - '0' as int
  }

  /** `fmt.Sprintf("%d", n)` for a non-negative value: at least one digit, no leading zero. */
  function NatToDecimal(n: nat): (s: string)
    ensures |s| >= 1 && AllDigits(s)
    ensures |s| > 1 ==> s[0] != '0'
    ensures n < 10 <==> |s| == 1
    decreases n
  {
    if n < 10 then [DigitChar(n)] else NatToDecimal(n / 10) + [DigitChar(n % 10)]
  }

  /** `fmt.Sprintf("%d", i)` for any integer: a minus sign before the digits of a negative value. */
  function IntToDecimal(i: int): (s: string)
  {
    if i < 0 then "-" + NatToDecimal(-i) else NatToDecimal(i)
  }

  /** A printed integer is a '-' and digits only, so it holds no separator such as '/'. */
  lemma IntToDecimalChars(i: int, c: char)
    requires c != '-' && !IsDigit(c)
    ensures c !in IntToDecimal(i)
  {
    var s := IntToDecimal(i);
    if i < 0 {
      assert forall k :: 1 <= k < |s| ==> s[k] == NatToDecimal(-i)[k - 1];
    }
  }

  /** The value of a string of decimal digits, most significant first (`""` is 0). */
  function DecimalValue(s: string): nat
    requires AllDigits(s)
  {
    if s == [] then 0 else DecimalValue(s[..|s| - 1]) * 10 + DigitValue(s[|s| - 1])
  }

  lemma {:induction false} DecimalRoundTrip(n: nat)
    ensures DecimalValue(NatToDecimal(n)) == n
    decreases n
  {
    var s := NatToDecimal(n);
    if n < 10 {
      assert s[..|s| - 1] == [];
    } else {
      assert s[..|s| - 1] == NatToDecimal(n / 10);
      DecimalRoundTrip(n / 10);
    }
  }

  /**
   * `strconv.Atoi` on a 64-bit platform: an optional `+` or `-`, then one or more decimal digits,
   * and the value must fit in an `int64`; anything else is an error (`None`).
   */
  function Atoi(s: string): Option<int>
  {
    if s == [] then None
    else
      var digits := if s[0] == '+' || s[0] == '-' then s[1..] else s;
      if digits == [] || !AllDigits(digits) then None
      else
        var magnitude: int := DecimalValue(digits);
        var v := if s[0] == '-' then -magnitude else magnitude;
        if MinInt64 <= v <= MaxInt64 then Some(v) else None
  }

  /** Atoi accepts nothing but an optionally signed, non-empty run of digits. */
  lemma AtoiAcceptsOnlyIntegers(s: string)
    ensures Atoi(s).Some? ==>
      s != [] &&
      var digits := if s[0] == '+' || s[0] == '-' then s[1..] else s;
      digits != [] && AllDigits(digits) && MinInt64 <= Atoi(s).value <= MaxInt64
  {
  }

  /** A non-empty run of digits reads as its value, within the `int64` range. */
  lemma AtoiBare(d: string)
    requires d != [] && AllDigits(d) && DecimalValue(d) <= MaxInt64
    ensures Atoi(d) == Some(DecimalValue(d) as int)
  {
    assert IsDigit(d[0]);
  }

  /** A negative `int64` printed with its '-' reads back as itself. */
  lemma AtoiNegative(v: int)
    requires MinInt64 <= v < 0
    ensures Atoi(IntToDecimal(v)) == Some(v)
  {
    var d := NatToDecimal(-v);
    var s := "-" + d;
    assert s[0] == '-' && s[1..] == d;
    DecimalRoundTrip(-v);
    assert Atoi(s) == Some(v);
  }

  /** A non-negative `int64` printed as bare digits reads back as itself. */
  lemma AtoiUnsigned(v: int)
    requires 0 <= v <= MaxInt64
    ensures Atoi(IntToDecimal(v)) == Some(v)
  {
    DecimalRoundTrip(v);
    AtoiBare(NatToDecimal(v));
  }

  /** Printing an `int64` with `%d` and parsing it back with Atoi gives the same value. */
  lemma AtoiRoundTrip(v: int)
    requires MinInt64 <= v <= MaxInt64
    ensures Atoi(IntToDecimal(v)) == Some(v)
  {
    if v < 0 {
      AtoiNegative(v);
    } else {
      AtoiUnsigned(v);
    }
  }

  /** `strconv.ParseUint(s, 10, 0)` on a 64-bit platform: one or more digits, no sign, at most 2^64 - 1. */
  function ParseUint(s: string): Option<U64>
  {
    if s == [] || !AllDigits(s) then None
    else
      var v := DecimalValue(s);
      if v <= MaxUint64 then Some(v) else None
  }

  lemma ParseUintRoundTrip(n: U64)
    ensures ParseUint(NatToDecimal(n)) == Some(n)
  {
    DecimalRoundTrip(n);
  }

  /** `fmt.Sprintf("%02d", n)`: padded with one zero to width 2 when the value has a single digit. */
  function Pad2(n: nat): string
  {
    if n < 10 then "0" + NatToDecimal(n) else NatToDecimal(n)
  }

  lemma Pad2TwoDigits(n: nat)
    requires n < 100
    ensures |Pad2(n)| == 2 && AllDigits(Pad2(n)) && DecimalValue(Pad2(n)) == n
  {
    var p := Pad2(n);
    DecimalRoundTrip(n);
    if n < 10 {
      assert p[..1] == "0";
    } else {
      assert NatToDecimal(n) == NatToDecimal(n / 10) + [DigitChar(n % 10)];
    }
  }

  /** `strings.TrimLeft(s, [c])`: every leading `c` is removed. */
  function TrimLeft(s: string, c: char): (r: string)
    ensures |r| <= |s|
    ensures forall i :: 0 <= i < |s| - |r| ==> s[i] == c
    ensures r == [] || r[0] != c
  {
    if s != [] && s[0] == c then TrimLeft(s[1..], c) else s
  }

  /** `strings.TrimRight(s, [c])`: every trailing `c` is removed. */
  function TrimRight(s: string, c: char): (r: string)
    ensures |r| <= |s|
    ensures forall i :: |r| <= i < |s| ==> s[i] == c
    ensures r == [] || r[|r| - 1] != c
  {
    if s != [] && s[|s| - 1] == c then TrimRight(s[..|s| - 1], c) else s
  }

  /** What TrimLeft keeps is a suffix of its input. */
  lemma {:induction false} TrimLeftSuffix(s: string, c: char)
    ensures TrimLeft(s, c) == s[|s| - |TrimLeft(s, c)|..]
    decreases |s|
  {
    if s != [] && s[0] == c {
      TrimLeftSuffix(s[1..], c);
    }
  }

  /** What TrimRight keeps is a prefix of its input. */
  lemma {:induction false} TrimRightPrefix(s: string, c: char)
    ensures TrimRight(s, c) == s[..|TrimRight(s, c)|]
    decreases |s|
  {
    if s != [] && s[|s| - 1] == c {
      TrimRightPrefix(s[..|s| - 1], c);
    }
  }

  /** `strings.Trim(s, [c])` with a one-character cutset. */
  function Trim(s: string, c: char): (r: string)
    ensures r == [] || (r[0] != c && r[|r| - 1] != c)
  {
    TrimRightPrefix(TrimLeft(s, c), c);
    TrimRight(TrimLeft(s, c), c)
  }

  /** Trim removes only copies of `c`, from the two ends, and keeps the middle intact. */
  lemma TrimSlice(s: string, c: char)
    ensures var k := |s| - |TrimLeft(s, c)|;
      var r := Trim(s, c);
      k + |r| <= |s| && r == s[k..k + |r|] &&
      (forall i :: 0 <= i < k ==> s[i] == c) &&
      (forall i :: k + |r| <= i < |s| ==> s[i] == c)
  {
    var l := TrimLeft(s, c);
    TrimLeftSuffix(s, c);
    TrimRightPrefix(l, c);
    SuffixPrefixSlice(s, |s| - |l|, TrimRight(l, c), c);
  }

  /** A prefix `r` of the suffix of `s` from `k`, followed only by `c`, leaves `c`s at the back of `s`. */
  lemma SuffixPrefixSlice(s: string, k: nat, r: string, c: char)
    requires k <= |s| && |r| <= |s| - k && r == s[k..][..|r|]
    requires forall i :: |r| <= i < |s| - k ==> s[k..][i] == c
    ensures r == s[k..k + |r|]
    ensures forall i :: k + |r| <= i < |s| ==> s[i] == c
  {
    forall i | k + |r| <= i < |s| ensures s[i] == c {
      assert s[i] == s[k..][i - k];
    }
  }

  /** A string that neither starts nor ends with `c` is left as it is. */
  lemma TrimFixed(s: string, c: char)
    requires s == [] || (s[0] != c && s[|s| - 1] != c)
    ensures Trim(s, c) == s
  {
  }

  /** Surrounding one copy of `c` on each side is removed again. */
  lemma TrimPadded(s: string, c: char)
    requires s != [] && s[0] != c && s[|s| - 1] != c
    ensures Trim([c] + s + [c], c) == s
  {
    var p := [c] + s + [c];
    assert p[1..] == s + [c];
    assert TrimLeft(p, c) == s + [c];
    assert (s + [c])[..|s|] == s;
    assert TrimRight(s + [c], c) == TrimRight(s, c);
  }

  /** So is a single leading copy of `c`. */
  lemma TrimLeading(s: string, c: char)
    requires s != [] && s[0] != c && s[|s| - 1] != c
    ensures Trim([c] + s, c) == s
  {
    assert ([c] + s)[1..] == s;
    assert TrimLeft([c] + s, c) == s;
  }

  /** `strings.Split(s, string(sep))`: n separators give n + 1 pieces, none containing `sep`. */
  function Split(s: string, sep: char): (parts: seq<string>)
    ensures |parts| >= 1
    ensures forall i :: 0 <= i < |parts| ==> sep !in parts[i]
    decreases |s|
  {
    if s == [] then [[]]
    else
      var rest := Split(s[1..], sep);
      if s[0] == sep then [[]] + rest else [[s[0]] + rest[0]] + rest[1..]
  }

  /** `strings.Join(parts, string(sep))`. */
  function Join(parts: seq<string>, sep: char): string
    requires |parts| >= 1
  {
    if |parts| == 1 then parts[0] else parts[0] + [sep] + Join(parts[1..], sep)
  }

  /** Joining the pieces of a split gives the original string back. */
  lemma {:induction false} JoinSplit(s: string, sep: char)
    ensures Join(Split(s, sep), sep) == s
    decreases |s|
  {
    if s != [] {
      var rest := Split(s[1..], sep);
      JoinSplit(s[1..], sep);
      if s[0] == sep {
        assert Split(s, sep)[1..] == rest;
      } else {
        var parts := Split(s, sep);
        if |rest| == 1 {
          assert parts == [[s[0]] + rest[0]];
        } else {
          assert parts[1..] == rest[1..];
          assert Join(rest, sep) == rest[0] + [sep] + Join(rest[1..], sep);
        }
      }
    }
  }

  lemma {:induction false} SplitNoSeparator(s: string, sep: char)
    requires sep !in s
    ensures Split(s, sep) == [s]
    decreases |s|
  {
    if s != [] {
      SplitNoSeparator(s[1..], sep);
      assert [s[0]] + s[1..] == s;
    }
  }

  lemma {:induction false} SplitAtSeparator(a: string, sep: char, rest: string)
    requires sep !in a
    ensures Split(a + [sep] + rest, sep) == [a] + Split(rest, sep)
    decreases |a|
  {
    var s := a + [sep] + rest;
    if a == [] {
      assert s[1..] == rest;
    } else {
      assert s[1..] == a[1..] + [sep] + rest;
      SplitAtSeparator(a[1..], sep, rest);
      assert [a[0]] + a[1..] == a;
    }
  }

  /** The last piece of a split is what follows the last separator. */
  lemma {:induction false} SplitLast(a: string, sep: char, b: string)
    requires sep !in b
    ensures var parts := Split(a + [sep] + b, sep);
      |parts| >= 2 && parts[|parts| - 1] == b
    decreases |a|
  {
    var s := a + [sep] + b;
    if a == [] {
      assert s[1..] == b;
      SplitNoSeparator(b, sep);
    } else {
      assert s[1..] == a[1..] + [sep] + b;
      SplitLast(a[1..], sep, b);
    }
  }

  /** Three separator-free pieces joined by the separator split back into those three. */
  lemma SplitThree(a: string, b: string, c: string, sep: char)
    requires sep !in a && sep !in b && sep !in c
    ensures Split(a + [sep] + b + [sep] + c, sep) == [a, b, c]
  {
    SplitAtSeparator(a, sep, b + [sep] + c);
    SplitAtSeparator(b, sep, c);
    SplitNoSeparator(c, sep);
    assert a + [sep] + b + [sep] + c == a + [sep] + (b + [sep] + c);
  }

  /** Splitting a join of separator-free pieces gives the pieces back. */
  lemma {:induction false} SplitJoin(parts: seq<string>, sep: char)
    requires |parts| >= 1
    requires forall i :: 0 <= i < |parts| ==> sep !in parts[i]
    ensures Split(Join(parts, sep), sep) == parts
    decreases |parts|
  {
    if |parts| == 1 {
      SplitNoSeparator(parts[0], sep);
    } else {
      SplitJoin(parts[1..], sep);
      SplitAtSeparator(parts[0], sep, Join(parts[1..], sep));
    }
  }

  /** `strings.Contains(s, sub)`. */
  predicate Contains(s: string, sub: string)
    decreases |s|
  {
    |sub| <= |s| && (s[..|sub|] == sub || Contains(s[1..], sub))
  }

  lemma {:induction false} ContainsInfix(a: string, sub: string, b: string)
    ensures Contains(a + sub + b, sub)
    decreases |a|
  {
    var s := a + sub + b;
    if a == [] {
      assert s[..|sub|] == sub;
    } else {
      assert s[1..] == a[1..] + sub + b;
      ContainsInfix(a[1..], sub, b);
    }
  }

  lemma {:induction false} ContainsNeedsRoom(s: string, sub: string)
    requires Contains(s, sub)
    ensures |sub| <= |s|
  {
  }
}
