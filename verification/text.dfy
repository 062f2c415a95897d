/** The few pieces of Python 2 string handling the gossip code relies on:
    `str.strip()`, `str.split(',')`, the `re.split(r',\s?', ...)` of the
    neighbour-file reader, and `int()` applied to a field of a CSV row. */
module Text {
  import opened Wrappers

  /** Python 2 whitespace on byte strings (`str.isspace`, the regular
      expression class `\s` without the UNICODE flag): space, tab, line feed,
      vertical tab, form feed and carriage return. */
  predicate IsSpace(c: char) {
    c == ' ' || c == '\t' || c == '\n' || c == '\r' || c as int == 11 || c as int == 12
  }

  predicate IsDigit(c: char) {
    '0' <= c <= '9'
  }

  predicate AllDigits(s: string) {
    forall i :: 0 <= i < |s| ==> IsDigit(s[i])
  }

  /** Removes leading whitespace (`str.lstrip()`). */
  function TrimStart(s: string): (r: string)
    ensures |r| <= |s| && r == s[|s| - |r|..]
    ensures forall i :: 0 <= i < |s| - |r| ==> IsSpace(s[i])
    ensures r == [] || !IsSpace(r[0])
    decreases |s|
  {
    if |s| > 0 && IsSpace(s[0]) then TrimStart(s[1..]) else s
  }

  /** Removes trailing whitespace (`str.rstrip()`). */
  function TrimEnd(s: string): (r: string)
    ensures |r| <= |s| && r == s[..|r|]
    ensures forall i :: |r| <= i < |s| ==> IsSpace(s[i])
    ensures r == [] || !IsSpace(r[|r| - 1])
    decreases |s|
  {
    if |s| > 0 && IsSpace(s[|s| - 1]) then TrimEnd(s[..|s| - 1]) else s
  }

  /** `str.strip()`: everything cut off on either side is whitespace, and
      the result neither starts nor ends with whitespace. `StripIsSlice`
      says that what remains is the contiguous middle of `s`. */
  function Strip(s: string): (r: string)
    ensures StripOffset(s) + |r| <= |s|
    ensures forall i :: 0 <= i < StripOffset(s) ==> IsSpace(s[i])
    ensures forall i :: StripOffset(s) + |r| <= i < |s| ==> IsSpace(s[i])
    ensures r == [] || (!IsSpace(r[0]) && !IsSpace(r[|r| - 1]))
  {
    TrimEnd(TrimStart(s))
  }

  /** Number of leading whitespace characters that `Strip` removes. */
  function StripOffset(s: string): nat
    ensures StripOffset(s) <= |s|
  {
    |s| - |TrimStart(s)|
  }

  /** What `strip()` keeps is the contiguous middle of `s`, starting after
      the leading whitespace. */
  lemma StripIsSlice(s: string)
    ensures Strip(s) == s[StripOffset(s)..StripOffset(s) + |Strip(s)|]
  {
  }

  /** A string with no surrounding whitespace is its own `strip()`. */
  lemma StripUnchanged(s: string)
    requires s == [] || (!IsSpace(s[0]) && !IsSpace(s[|s| - 1]))
    ensures Strip(s) == s
  {
  }

  /** `strip()` is idempotent. */
  lemma StripIdempotent(s: string)
    ensures Strip(Strip(s)) == Strip(s)
  {
    StripUnchanged(Strip(s));
  }

  /** Joins fields with a separator; the inverse of `Split`. */
  function Join(fields: seq<string>, sep: char): string
  {
    if |fields| == 0 then []
    else if |fields| == 1 then fields[0]
    else fields[0] + [sep] + Join(fields[1..], sep)
  }

  /** Python `s.split(sep)` with an explicit one-character separator: at
      least one field, and no field contains the separator. `SplitCount` and
      `JoinSplit` give the number of fields and show that joining them gives
      `s` back. */
  function Split(s: string, sep: char): (r: seq<string>)
    ensures |r| > 0
    ensures forall i :: 0 <= i < |r| ==> sep !in r[i]
    decreases |s|
  {
    if |s| == 0 then [[]]
    else
      var t := Split(s[1..], sep);
      if s[0] == sep then [[]] + t else [[s[0]] + t[0]] + t[1..]
  }

  /** Number of occurrences of `c` in `s`. */
  function Count(s: string, c: char): nat
    decreases |s|
  {
    if |s| == 0 then 0 else (if s[0] == c then 1 else 0) + Count(s[1..], c)
  }

  lemma {:induction false} CountAbsent(s: string, c: char)
    requires c !in s
    ensures Count(s, c) == 0
    decreases |s|
  {
    if |s| > 0 {
      CountAbsent(s[1..], c);
    }
  }

  /** `s.split(sep)` has one field more than `s` has separators. */
  lemma {:induction false} SplitCount(s: string, sep: char)
    ensures |Split(s, sep)| == Count(s, sep) + 1
    decreases |s|
  {
    if |s| > 0 {
      SplitCount(s[1..], sep);
    }
  }

  /** Joining the fields of `s.split(sep)` with `sep` gives `s` back. */
  lemma {:induction false} JoinSplit(s: string, sep: char)
    ensures Join(Split(s, sep), sep) == s
    decreases |s|
  {
    if |s| > 0 {
      var t := Split(s[1..], sep);
      JoinSplit(s[1..], sep);
      assert s == [s[0]] + s[1..];
      if s[0] == sep {
        JoinCons([], t, sep);
      } else if |t| > 1 {
        JoinCons(t[0], t[1..], sep);
        JoinCons([s[0]] + t[0], t[1..], sep);
      }
    }
  }

  lemma JoinCons(f: string, rest: seq<string>, sep: char)
    requires |rest| > 0
    ensures Join([f] + rest, sep) == f + [sep] + Join(rest, sep)
  {
    assert ([f] + rest)[1..] == rest;
  }

  /** A string without the separator is a single field. */
  lemma {:induction false} SplitNoSeparator(s: string, sep: char)
    requires sep !in s
    ensures Split(s, sep) == [s]
    decreases |s|
  {
    if |s| > 0 {
      SplitNoSeparator(s[1..], sep);
      assert [s[0]] + s[1..] == s;
    }
  }

  /** Splitting at the first separator: the text before it is the first
      field, and the rest is split in turn. */
  lemma {:induction false} SplitFirstSeparator(a: string, sep: char, b: string)
    requires sep !in a
    ensures Split(a + [sep] + b, sep) == [a] + Split(b, sep)
    decreases |a|
  {
    var s := a + [sep] + b;
    if |a| == 0 {
      assert s[1..] == b;
    } else {
      SplitFirstSeparator(a[1..], sep, b);
      assert s[1..] == a[1..] + [sep] + b;
      assert [a[0]] + a[1..] == a;
    }
  }

  /** Splitting fields that hold no separator, joined with it, gives the
      fields back: `Split` is the inverse of `Join` on such fields. */
  lemma {:induction false} SplitJoin(fields: seq<string>, sep: char)
    requires |fields| > 0
    requires forall i :: 0 <= i < |fields| ==> sep !in fields[i]
    ensures Split(Join(fields, sep), sep) == fields
    decreases |fields|
  {
    if |fields| == 1 {
      SplitNoSeparator(fields[0], sep);
    } else {
      var rest := fields[1..];
      SplitJoin(rest, sep);
      SplitFirstSeparator(fields[0], sep, Join(rest, sep));
      assert [fields[0]] + rest == fields;
    }
  }

  /** A join of non-empty fields begins with the first field's first
      character and ends with the last field's last character. */
  lemma {:induction false} JoinEnds(fields: seq<string>, sep: char)
    requires |fields| > 0
    requires forall i :: 0 <= i < |fields| ==> |fields[i]| > 0
    ensures |Join(fields, sep)| > 0
    ensures Join(fields, sep)[0] == fields[0][0]
    ensures Join(fields, sep)[|Join(fields, sep)| - 1] == fields[|fields| - 1][|fields[|fields| - 1]| - 1]
    decreases |fields|
  {
    if |fields| > 1 {
      JoinEnds(fields[1..], sep);
    }
  }

  /** Drops the optional `\s?` the separator regular expression consumes
      after a comma. */
  function DropOneSpace(f: string): string {
    if |f| > 0 && IsSpace(f[0]) then f[1..] else f
  }

  /** `re.compile(r',\s?').split(s)`: the fields between commas, where a
      comma also consumes at most one whitespace character after it. */
  function SplitCommaSpace(s: string): (r: seq<string>)
    ensures |r| == |Split(s, ',')|
    ensures forall i :: 0 <= i < |r| ==> ',' !in r[i]
    ensures r[0] == Split(s, ',')[0]
    ensures forall i :: 1 <= i < |r| ==> r[i] == DropOneSpace(Split(s, ',')[i])
  {
    var f := Split(s, ',');
    seq(|f|, i requires 0 <= i < |f| => if i == 0 then f[i] else DropOneSpace(f[i]))
  }

  function DigitValue(c: char): nat
    requires IsDigit(c)
  {
    (c as int) - ('0' as int)
  }

  /** Value of a run of decimal digits, most significant first. */
  function DigitsValue(ds: string): (n: nat)
    requires AllDigits(ds)
    decreases |ds|
  {
    if |ds| == 0 then 0
    else DigitsValue(ds[..|ds| - 1]) * 10 + DigitValue(ds[|ds| - 1])
  }

  /** A run of digits denotes zero exactly when every digit is '0'. */
  lemma {:induction false} DigitsValueZero(ds: string)
    requires AllDigits(ds)
    ensures DigitsValue(ds) == 0 <==> forall i :: 0 <= i < |ds| ==> ds[i] == '0'
    decreases |ds|
  {
    if |ds| > 0 {
      var init := ds[..|ds| - 1];
      DigitsValueZero(init);
      assert forall i :: 0 <= i < |init| ==> init[i] == ds[i];
      assert (forall i :: 0 <= i < |ds| ==> ds[i] == '0')
        <==> (forall i :: 0 <= i < |init| ==> init[i] == '0') && ds[|ds| - 1] == '0';
    }
  }

  datatype IntError = NotAnInteger

  /** The optional sign and the digits of an integer literal, once the
      leading whitespace is gone. */
  function UnsignedPart(t: string): string {
    if |t| > 0 && (t[0] == '-' || t[0] == '+') then t[1..] else t
  }

  /** The digits `int()` reads: after the sign, whitespace is skipped again
      (CPython 2 `strtol` then `strtoul` each skip it), and trailing
      whitespace is allowed. */
  function DigitsOf(s: string): string {
    Strip(UnsignedPart(TrimStart(s)))
  }

  /** Python 2 `int(s)` in base 10: optional surrounding whitespace, an
      optional sign, then one or more decimal digits; anything else raises
      `ValueError`. */
  function ParseInt(s: string): (r: Result<int, IntError>)
    ensures r.Success? <==> |DigitsOf(s)| > 0 && AllDigits(DigitsOf(s))
  {
    var t := TrimStart(s);
    var ds := DigitsOf(s);
    if |ds| > 0 && AllDigits(ds) then
      var n: int := DigitsValue(ds);
      var v: int := if |t| > 0 && t[0] == '-' then -n else n;
      Success(v)
    else
      Failure(NotAnInteger)
  }

  /** A parsed integer is zero exactly when all its digits are '0' (so "-0"
      and "000" are zero, whatever the sign). */
  lemma ParseIntZero(s: string)
    requires ParseInt(s).Success?
    ensures ParseInt(s).value == 0 <==> forall i :: 0 <= i < |DigitsOf(s)| ==> DigitsOf(s)[i] == '0'
  {
    DigitsValueZero(DigitsOf(s));
  }

  /** Decimal rendering of a natural number, as Python's `str` writes it. */
  function NatToDecimal(n: nat): (s: string)
    ensures |s| > 0 && AllDigits(s)
    decreases n
  {
    if n < 10 then [('0' as int + n) as char]
    else NatToDecimal(n / 10) + [('0' as int + n % 10) as char]
  }

  /** Decimal rendering of an integer, as Python's `str` writes it. */
  function IntToDecimal(n: int): string {
    if n < 0 then ['-'] + NatToDecimal(-n) else NatToDecimal(n)
  }

  lemma {:induction false} NatToDecimalValue(n: nat)
    ensures DigitsValue(NatToDecimal(n)) == n
    decreases n
  {
    if n >= 10 {
      NatToDecimalValue(n / 10);
      var s := NatToDecimal(n);
      assert s[..|s| - 1] == NatToDecimal(n / 10);
    }
  }

  /** `int(str(n)) == n`: parsing the decimal rendering of any integer gives
      the integer back. */
  lemma IntRoundTrip(n: int)
    ensures ParseInt(IntToDecimal(n)) == Success(n)
  {
    var s := IntToDecimal(n);
    var ds := if n < 0 then NatToDecimal(-n) else NatToDecimal(n);
    assert !IsSpace(s[0]);
    assert TrimStart(s) == s;
    assert UnsignedPart(s) == ds;
    assert !IsSpace(ds[0]) && !IsSpace(ds[|ds| - 1]);
    StripUnchanged(ds);
    assert DigitsOf(s) == ds;
    NatToDecimalValue(if n < 0 then -n else n);
  }
}
