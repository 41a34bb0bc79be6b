/** Character-level helpers shared by the model: the ordering std::map and
    std::string use, decimal formatting as std::ostream writes an int, and
    std::stoi. A Dafny `char` stands for one C++ `char` (a byte). */
module Text {
  import opened Wrappers

  /** Strict lexicographic order on character codes: the order of
      std::string's operator<, hence the iteration order of a std::map
      keyed by strings. */
  predicate Less(a: string, b: string)
    decreases |a|
  {
    if a == [] then b != []
    else b != [] && (a[0] < b[0] || (a[0] == b[0] && Less(a[1..], b[1..])))
  }

  lemma LessIrreflexive(a: string)
    ensures !Less(a, a)
  {
  }

  lemma {:induction false} LessTransitive(a: string, b: string, c: string)
    requires Less(a, b) && Less(b, c)
    ensures Less(a, c)
    decreases |a|
  {
    if a != [] && b != [] && c != [] && a[0] == b[0] && b[0] == c[0] {
      LessTransitive(a[1..], b[1..], c[1..]);
    }
  }

  lemma {:induction false} LessTotal(a: string, b: string)
    ensures a == b || Less(a, b) || Less(b, a)
    decreases |a|
  {
    if a != [] && b != [] && a[0] == b[0] {
      LessTotal(a[1..], b[1..]);
      if a[1..] == b[1..] {
        assert a == [a[0]] + a[1..] && b == [b[0]] + b[1..];
      }
    }
  }

  predicate StrictlyAscending(r: seq<string>) {
    forall i, j :: 0 <= i < j < |r| ==> Less(r[i], r[j])
  }

  predicate IsLeast(m: string, s: set<string>) {
    m in s && forall x :: x in s && x != m ==> Less(m, x)
  }

  lemma {:induction false} LeastExists(s: set<string>)
    requires s != {}
    ensures exists m :: IsLeast(m, s)
    decreases |s|
  {
    var x :| x in s;
    if s == {x} {
      assert IsLeast(x, s);
    } else {
      LeastExists(s - {x});
      var m :| IsLeast(m, s - {x});
      LessTotal(x, m);
      if Less(x, m) {
        forall y | y in s && y != x
          ensures Less(x, y)
        {
          if y != m { LessTransitive(x, m, y); }
        }
        assert IsLeast(x, s);
      } else {
        assert IsLeast(m, s);
      }
    }
  }

  lemma LeastUnique(s: set<string>)
    ensures forall a, b :: IsLeast(a, s) && IsLeast(b, s) ==> a == b
  {
    forall a, b | IsLeast(a, s) && IsLeast(b, s)
      ensures a == b
    {
      if a != b {
        LessTransitive(a, b, a);
        LessIrreflexive(a);
      }
    }
  }

  /** The keys of a std::map in iteration order. */
  function SortedKeys(s: set<string>): (r: seq<string>)
    ensures |r| == |s|
    ensures forall x :: x in r <==> x in s
    ensures StrictlyAscending(r)
    decreases |s|
  {
    if s == {} then []
    else
      LeastExists(s);
      LeastUnique(s);
      var m :| IsLeast(m, s);
      var rest := SortedKeys(s - {m});
      assert forall j :: 0 <= j < |rest| ==> Less(m, rest[j]) by {
        forall j | 0 <= j < |rest| ensures Less(m, rest[j]) {
          assert rest[j] in s - {m};
        }
      }
      [m] + rest
  }

  // ---------------------------------------------------------------- decimal

  predicate IsDigit(c: char) {
    '0' <= c <= '9'
  }

  predicate AllDigits(s: string) {
    forall k :: 0 <= k < |s| ==> IsDigit(s[k])
  }

  function DigitChar(d: nat): (c: char)
    requires d < 10
    ensures IsDigit(c)
  {
    ('0' as int + d) as char
  }

  function DigitValue(c: char): (d: nat)
    requires IsDigit(c)
    ensures d < 10
  {
    c as int - '0' as int
  }

  /** Decimal digits of a natural number, most significant first, no leading zeros. */
  function NatDigits(n: nat): (r: string)
    ensures |r| > 0 && AllDigits(r)
    decreases n
  {
    if n < 10 then [DigitChar(n)] else NatDigits(n / 10) + [DigitChar(n % 10)]
  }

  /** An int as `std::ostream << int` writes it. */
  function DecimalString(n: int): string {
    if n < 0 then "-" + NatDigits(-n) else NatDigits(n)
  }

  /** The value denoted by a string of decimal digits. */
  function DigitsValue(s: string): nat
    requires AllDigits(s)
  {
    if s == [] then 0 else DigitsValue(s[..|s| - 1]) * 10 + DigitValue(s[|s| - 1])
  }

  lemma {:induction false} DigitsRoundTrip(n: nat)
    ensures DigitsValue(NatDigits(n)) == n
    decreases n
  {
    if n >= 10 {
      var r := NatDigits(n);
      assert r[..|r| - 1] == NatDigits(n / 10);
      DigitsRoundTrip(n / 10);
    }
  }

  /** Reads back a DecimalString: an optional '-' followed by digits. */
  function ParseDecimal(s: string): Option<int> {
    if |s| > 0 && s[0] == '-' then
      (if |s| > 1 && AllDigits(s[1..]) then Some(0 - DigitsValue(s[1..]) as int) else None)
    else if |s| > 0 && AllDigits(s) then Some(DigitsValue(s))
    else None
  }

  lemma DecimalRoundTrip(n: int)
    ensures ParseDecimal(DecimalString(n)) == Some(n)
  {
    var s := DecimalString(n);
    if n < 0 {
      var d := NatDigits(-n);
      DigitsRoundTrip(-n);
      assert s == "-" + d && s[1..] == d;
      assert ParseDecimal(s) == Some(0 - DigitsValue(d) as int);
    } else {
      var d := NatDigits(n);
      DigitsRoundTrip(n);
      assert s == d && s[0] != '-';
      assert ParseDecimal(s) == Some(DigitsValue(d));
    }
  }

  // ------------------------------------------------------------------- stoi

  /** The characters isspace accepts in the C locale. */
  predicate IsSpace(c: char) {
    c == ' ' || c == '\t' || c == '\n' || c == '\U{B}' || c == '\U{C}' || c == '\r'
  }

  function SpaceRun(s: string): (r: nat)
    ensures r <= |s|
    ensures forall k :: 0 <= k < r ==> IsSpace(s[k])
    ensures r < |s| ==> !IsSpace(s[r])
  {
    if s != [] && IsSpace(s[0]) then 1 + SpaceRun(s[1..]) else 0
  }

  function DigitRun(s: string): (r: nat)
    ensures r <= |s|
    ensures AllDigits(s[..r])
    ensures r < |s| ==> !IsDigit(s[r])
  {
    if s != [] && IsDigit(s[0]) then 1 + DigitRun(s[1..]) else 0
  }

  datatype StoiError = NoConversion | OutOfRange

  const IntMin: int := -0x8000_0000
  const IntMax: int := 0x7fff_ffff

  /** Index of the first character after the leading white space and an
      optional sign: where std::stoi starts reading digits. */
  function DigitStart(s: string): (j: nat)
    ensures j <= |s|
  {
    var i := SpaceRun(s);
    if i < |s| && (s[i] == '+' || s[i] == '-') then i + 1 else i
  }

  /** std::stoi(s) (base 10): skips leading white space, takes an optional
      sign and the longest run of digits; throws invalid_argument when there
      is no digit and out_of_range when the value does not fit a 32-bit int. */
  function Stoi(s: string): Result<int, StoiError> {
    var i := SpaceRun(s);
    var negative := i < |s| && s[i] == '-';
    var j := DigitStart(s);
    var d := DigitRun(s[j..]);
    if d == 0 then Failure(NoConversion)
    else
      var magnitude: int := DigitsValue(s[j..][..d]);
      var v: int := if negative then -magnitude else magnitude;
      if v < IntMin || v > IntMax then Failure(OutOfRange) else Success(v)
  }

  /** std::stoi fails with invalid_argument exactly when no digit follows
      the leading white space and optional sign. */
  lemma StoiNoConversion(s: string)
    ensures Stoi(s) == Failure(NoConversion) <==> !(DigitStart(s) < |s| && IsDigit(s[DigitStart(s)]))
  {
    var j := DigitStart(s);
    if j < |s| && IsDigit(s[j]) {
      assert s[j..][0] == s[j];
    }
  }

  /** The digit run std::stoi reads from s. */
  function DigitsRead(s: string): (r: string)
    ensures AllDigits(r)
  {
    var j := DigitStart(s);
    s[j..][..DigitRun(s[j..])]
  }

  /** There are digits to read, but their value with its sign lies outside
      the 32-bit range: the magnitude exceeds 2^31 after a '-' and 2^31 - 1
      otherwise. */
  predicate BeyondInt(s: string) {
    var i := SpaceRun(s);
    var limit := if i < |s| && s[i] == '-' then 0x8000_0000 else 0x7fff_ffff;
    DigitsRead(s) != [] && DigitsValue(DigitsRead(s)) > limit
  }

  /** std::stoi throws out_of_range exactly when the number it reads does not
      fit a 32-bit int, and every value it returns fits. */
  lemma StoiOutOfRange(s: string)
    ensures Stoi(s) == Failure(OutOfRange) <==> BeyondInt(s)
    ensures Stoi(s).Success? ==> IntMin <= Stoi(s).value <= IntMax
  {
  }

  /** std::stoi reads back every int that DecimalString writes. */
  lemma StoiDecimal(n: int)
    requires IntMin <= n <= IntMax
    ensures Stoi(DecimalString(n)) == Success(n)
  {
    var s := DecimalString(n);
    var digits := NatDigits(if n < 0 then -n else n);
    assert SpaceRun(s) == 0;
    var j := DigitStart(s);
    assert s[j..] == digits;
    AllDigitsRun(digits);
    assert s[j..][..|digits|] == digits;
    DigitsRoundTrip(if n < 0 then -n else n);
  }

  lemma {:induction false} AllDigitsRun(s: string)
    requires AllDigits(s)
    ensures DigitRun(s) == |s|
  {
    if s != [] {
      AllDigitsRun(s[1..]);
    }
  }

  // ------------------------------------------------------------------ join

  /** Joins with a separator between consecutive items. */
  function Joined(items: seq<string>, sep: string): string
    decreases |items|
  {
    if items == [] then ""
    else if |items| == 1 then items[0]
    else items[0] + sep + Joined(items[1..], sep)
  }

  lemma {:induction false} JoinedSnoc(items: seq<string>, x: string, sep: string)
    requires items != []
    ensures Joined(items + [x], sep) == Joined(items, sep) + sep + x
    decreases |items|
  {
    if |items| > 1 {
      assert (items + [x])[1..] == items[1..] + [x];
      JoinedSnoc(items[1..], x, sep);
    } else {
      assert (items + [x])[1..] == [x];
    }
  }

}
