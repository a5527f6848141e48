// The version codec of ceell/ota/ota_version.c. Numbers are read as strtoul does
// (ISO/IEC 9899:2011, section 7.22.1.4): leading white space, an optional sign, as many
// digits as there are, saturation at ULONG_MAX, negation modulo ULONG_MAX + 1.
module OtaVersion {
  import opened Common

  datatype Version = Version(major: int, minor: int, patch: int) {
    ghost predicate Valid() {
      0 <= major <= 255 && 0 <= minor <= 255 && 0 <= patch <= 65535
    }
  }

  // ---------------------------------------------------------------- decimal numbers

  predicate IsDigit(c: char) {
    '0' <= c <= '9'
  }

  predicate IsSpace(c: char) {
    c == ' ' || '\t' <= c <= '\r'
  }

  // "%u"
  function Decimal(n: nat): (s: string)
    ensures |s| > 0 && forall c :: c in s ==> IsDigit(c)
  {
    if n < 10 then ['0' + (n as char)] else Decimal(n / 10) + ['0' + ((n % 10) as char)]
  }

  // The number a string of digits denotes.
  function Denotes(s: string): nat
    requires forall c :: c in s ==> IsDigit(c)
  {
    if |s| == 0 then 0
    else
      assert IsDigit(s[|s| - 1]);
      10 * Denotes(s[..|s| - 1]) + (s[|s| - 1] as int - '0' as int)
  }

  function DigitCount(s: string): (n: nat)
    ensures n <= |s|
    ensures forall k :: 0 <= k < n ==> IsDigit(s[k])
    ensures n < |s| ==> !IsDigit(s[n])
  {
    if |s| == 0 || !IsDigit(s[0]) then 0 else 1 + DigitCount(s[1..])
  }

  function SpaceCount(s: string): (n: nat)
    ensures n <= |s|
  {
    if |s| == 0 || !IsSpace(s[0]) then 0 else 1 + SpaceCount(s[1..])
  }

  // The value read from a text without leading space, after an optional sign, and how many
  // characters were used, 0 when there is no number.
  function Signed(t: string, ulongMax: nat): (r: (nat, nat))
    ensures r.1 <= |t|
  {
    var signed := t != "" && (t[0] == '-' || t[0] == '+');
    var digits := if signed then t[1..] else t;
    var n := DigitCount(digits);
    if n == 0 then (0, 0)
    else
      var v := Denotes(digits[..n]);
      var value :=
        if v > ulongMax then ulongMax
        else if signed && t[0] == '-' && v > 0 then ulongMax + 1 - v
        else v;
      (value, if signed then n + 1 else n)
  }

  // The same after leading white space.
  function StrToUl(s: string, ulongMax: nat): (r: (nat, nat))
    ensures r.1 <= |s|
  {
    var start := SpaceCount(s);
    var (value, used) := Signed(s[start..], ulongMax);
    if used == 0 then (0, 0) else (value, start + used)
  }

  // ---------------------------------------------------------------- parsing and printing

  // k numbers with dots between them, whatever follows the last.
  function Numbers(s: string, k: nat, ulongMax: nat): Option<seq<nat>> {
    if k == 0 then Some([])
    else
      var (v, end) := StrToUl(s, ulongMax);
      if end == 0 then None
      else if k == 1 then Some([v])
      else if end < |s| && s[end] == '.' then
        match Numbers(s[end + 1..], k - 1, ulongMax)
        case None => None
        case Some(rest) => Some([v] + rest)
      else None
  }

  function ParseSpec(s: string, ulongMax: nat): Option<Version> {
    match Numbers(s, 3, ulongMax)
    case None => None
    case Some(parts) =>
      if |parts| == 3 && parts[0] <= 255 && parts[1] <= 255 && parts[2] <= 65535
      then Some(Version(parts[0], parts[1], parts[2])) else None
  }

  function Prefixed(parts: seq<nat>, rest: Option<seq<nat>>): Option<seq<nat>> {
    match rest
    case None => None
    case Some(more) => Some(parts + more)
  }

  // One number further, as the parsing loop goes.
  lemma NumbersStep(parts: seq<nat>, s: string, k: nat, ulongMax: nat)
    requires k > 0
    ensures var (v, end) := StrToUl(s, ulongMax);
      Prefixed(parts, Numbers(s, k, ulongMax)) ==
        if end == 0 then None
        else if k == 1 then Some(parts + [v])
        else if end < |s| && s[end] == '.' then Prefixed(parts + [v], Numbers(s[end + 1..], k - 1, ulongMax))
        else None
  {
    hide StrToUl;
    var (v, end) := StrToUl(s, ulongMax);
    if end > 0 && k > 1 && end < |s| && s[end] == '.' && Numbers(s[end + 1..], k - 1, ulongMax).Some? {
      var more := Numbers(s[end + 1..], k - 1, ulongMax).value;
      assert parts + ([v] + more) == parts + [v] + more;
    }
  }

  lemma NumbersEnds(parts: seq<nat>, s: string, k: nat, ulongMax: nat)
    ensures Prefixed(parts, Numbers(s, 0, ulongMax)) == Some(parts)
    ensures Prefixed([], Numbers(s, k, ulongMax)) == Numbers(s, k, ulongMax)
  {
    hide StrToUl;
    assert parts + [] == parts;
    if Numbers(s, k, ulongMax).Some? {
      assert [] + Numbers(s, k, ulongMax).value == Numbers(s, k, ulongMax).value;
    }
  }

  // The loop of ceell_ota_ver_parse: three numbers, or None at the first that is missing
  // or, but for the last, not followed by a dot.
  method ParseParts(str: string, ulongMax: nat) returns (r: Option<seq<nat>>)
    ensures r == Numbers(str, 3, ulongMax)
    ensures r.Some? ==> |r.value| == 3
  {
    hide StrToUl, Numbers, Prefixed;
    var parts: seq<nat> := [];
    var p := str;
    NumbersEnds(parts, p, 3, ulongMax);
    for i := 0 to 3
      invariant |parts| == i
      invariant Numbers(str, 3, ulongMax) == Prefixed(parts, Numbers(p, 3 - i, ulongMax))
    {
      NumbersStep(parts, p, 3 - i, ulongMax);
      var read := StrToUl(p, ulongMax);
      if read.1 == 0 {
        return None;
      }
      if i < 2 {
        if read.1 == |p| || p[read.1] != '.' {
          return None;
        }
        p := p[read.1 + 1..];
      }
      parts := parts + [read.0];
      NumbersEnds(parts, p, 0, ulongMax);
    }
    NumbersEnds(parts, p, 0, ulongMax);
    return Some(parts);
  }

  // ceell_ota_ver_parse; None stands for -EINVAL.
  method Parse(str: Option<string>, ulongMax: nat) returns (ver: Option<Version>)
    ensures ver == if str.Some? then ParseSpec(str.value, ulongMax) else None
  {
    if str.None? {
      return None;
    }
    var parts := ParseParts(str.value, ulongMax);
    if parts.None? {
      return None;
    }
    if parts.value[0] > 255 || parts.value[1] > 255 || parts.value[2] > 65535 {
      return None;
    }
    return Some(Version(parts.value[0], parts.value[1], parts.value[2]));
  }

  // ceell_ota_ver_to_str
  function Print(v: Version): string
    requires v.Valid()
  {
    Decimal(v.major) + "." + Decimal(v.minor) + "." + Decimal(v.patch)
  }

  // ceell_ota_ver_cmp
  function Compare(a: Version, b: Version): int {
    if a.major != b.major then a.major - b.major
    else if a.minor != b.minor then a.minor - b.minor
    else a.patch - b.patch
  }

  // ---------------------------------------------------------------- properties

  lemma {:induction false} DecimalDenotes(n: nat)
    ensures Denotes(Decimal(n)) == n
  {
    if n >= 10 {
      DecimalDenotes(n / 10);
      var s := Decimal(n);
      assert s[..|s| - 1] == Decimal(n / 10);
    }
  }

  lemma {:induction false} DigitsStop(d: string, rest: string)
    requires forall c :: c in d ==> IsDigit(c)
    requires rest == "" || !IsDigit(rest[0])
    ensures DigitCount(d + rest) == |d|
  {
    if |d| == 0 {
      assert d + rest == rest;
    } else {
      assert (d + rest)[1..] == d[1..] + rest;
      DigitsStop(d[1..], rest);
    }
  }

  // What strtoul reads, after any white space and an optional sign: the number, ULONG_MAX
  // when it is greater, the negation modulo ULONG_MAX + 1 after a minus sign; and it stops
  // behind the last digit.
  lemma {:induction false} ReadsText(spaces: string, sign: string, n: nat, rest: string, ulongMax: nat)
    requires forall c :: c in spaces ==> c == ' ' || 9 <= c as int <= 13
    requires sign == "" || sign == "+" || sign == "-"
    requires rest == "" || !('0' <= rest[0] <= '9')
    ensures StrToUl(spaces + (sign + (Decimal(n) + rest)), ulongMax) ==
      (if n > ulongMax then ulongMax else if sign == "-" && n > 0 then ulongMax + 1 - n else n,
       |spaces| + |sign| + |Decimal(n)|)
  {
    hide Decimal, SpaceCount, Signed;
    var tail := sign + (Decimal(n) + rest);
    assert IsDigit(Decimal(n)[0]) && tail[0] == (if sign == "" then Decimal(n)[0] else sign[0]);
    SpacesStop(spaces, tail);
    assert (spaces + tail)[|spaces|..] == tail;
    SignedReads(sign, n, rest, ulongMax);
  }

  lemma SignedReads(sign: string, n: nat, rest: string, ulongMax: nat)
    requires sign == "" || sign == "+" || sign == "-"
    requires rest == "" || !IsDigit(rest[0])
    ensures Signed(sign + (Decimal(n) + rest), ulongMax) ==
      (if n > ulongMax then ulongMax else if sign == "-" && n > 0 then ulongMax + 1 - n else n,
       |sign| + |Decimal(n)|)
  {
    hide Decimal, Denotes, DigitCount;
    var d := Decimal(n);
    DigitsStop(d, rest);
    DecimalDenotes(n);
    assert IsDigit(d[0]) && (d + rest)[..|d|] == d && (d + rest)[0] == d[0];
    if sign == "" {
      assert sign + (d + rest) == d + rest;
    } else {
      assert (sign + (d + rest))[1..] == d + rest;
    }
  }

  lemma {:induction false} SpacesStop(spaces: string, tail: string)
    requires forall c :: c in spaces ==> IsSpace(c)
    requires tail != "" && !IsSpace(tail[0])
    ensures SpaceCount(spaces + tail) == |spaces|
  {
    if |spaces| == 0 {
      assert spaces + tail == tail;
    } else {
      assert (spaces + tail)[1..] == spaces[1..] + tail;
      SpacesStop(spaces[1..], tail);
    }
  }

  // Without a digit there is no number.
  lemma NoDigitNoNumber(s: string, ulongMax: nat)
    requires forall c :: c in s ==> !('0' <= c <= '9')
    ensures StrToUl(s, ulongMax) == (0, 0)
  {
    var t := s[SpaceCount(s)..];
    assert forall c :: c in t ==> c in s;
    assert |t| > 0 ==> t[0] in t;
    assert |t| > 1 ==> t[1..][0] == t[1] && t[1] in t;
  }

  // A printed number followed by anything but a digit reads back as that number.
  lemma {:induction false} ReadsBack(n: nat, rest: string, ulongMax: nat)
    requires rest == "" || !IsDigit(rest[0])
    ensures StrToUl(Decimal(n) + rest, ulongMax) == (Min(n, ulongMax), |Decimal(n)|)
  {
    hide StrToUl, Decimal;
    ReadsText("", "", n, rest, ulongMax);
    assert "" + ("" + (Decimal(n) + rest)) == Decimal(n) + rest;
  }

  lemma {:induction false} NumberThenDot(n: nat, rest: string, k: nat, ulongMax: nat)
    requires k > 0
    ensures Numbers(Decimal(n) + "." + rest, k + 1, ulongMax)
      == Prefixed([Min(n, ulongMax)], Numbers(rest, k, ulongMax))
  {
    hide StrToUl, Decimal;
    var d := Decimal(n);
    var s := d + "." + rest;
    assert s == d + ("." + rest) && s[|d|] == '.' && s[|d| + 1..] == rest;
    ReadsBack(n, "." + rest, ulongMax);
  }

  // Three printed numbers with dots between them are a version exactly when they are at most
  // 255, 255 and 65535, whatever follows that does not start with a digit.
  lemma {:induction false} DottedNumbersParse(a: nat, b: nat, c: nat, rest: string, ulongMax: nat)
    requires ulongMax > 65535 && (rest == "" || !IsDigit(rest[0]))
    ensures ParseSpec(Decimal(a) + "." + (Decimal(b) + "." + (Decimal(c) + rest)), ulongMax) ==
      if a <= 255 && b <= 255 && c <= 65535 then Some(Version(a, b, c)) else None
  {
    hide StrToUl, Decimal, Numbers;
    var s3 := Decimal(c) + rest;
    var s2 := Decimal(b) + "." + s3;
    NumberThenDot(a, s2, 2, ulongMax);
    NumberThenDot(b, s3, 1, ulongMax);
    ReadsBack(c, rest, ulongMax);
    NumbersStep([], s3, 1, ulongMax);
    NumbersEnds([], s3, 1, ulongMax);
  }

  // A text that is not followed by a dot where one is due.
  predicate WrongSeparator(rest: string) {
    rest == "" || (!IsDigit(rest[0]) && rest[0] != '.')
  }

  // Anything but a dot after the first or second number, or no digit where a number is due,
  // is an error.
  lemma {:induction false} NotAVersion(a: nat, b: nat, wrong: string, blank: string, ulongMax: nat)
    requires WrongSeparator(wrong) && forall c :: c in blank ==> !('0' <= c <= '9')
    ensures ParseSpec(Decimal(a) + wrong, ulongMax) == None
    ensures ParseSpec(Decimal(a) + "." + (Decimal(b) + wrong), ulongMax) == None
    ensures ParseSpec(blank, ulongMax) == None
    ensures ParseSpec(Decimal(a) + "." + blank, ulongMax) == None
    ensures ParseSpec(Decimal(a) + "." + (Decimal(b) + "." + blank), ulongMax) == None
  {
    hide StrToUl, Decimal, Numbers;
    SeparatorFails(a, wrong, 2, ulongMax);
    SeparatorFails(b, wrong, 1, ulongMax);
    NumberThenDot(a, Decimal(b) + wrong, 2, ulongMax);
    BlankFails(blank, 3, ulongMax);
    BlankFails(blank, 2, ulongMax);
    BlankFails(blank, 1, ulongMax);
    NumberThenDot(a, blank, 2, ulongMax);
    NumberThenDot(a, Decimal(b) + "." + blank, 2, ulongMax);
    NumberThenDot(b, blank, 1, ulongMax);
  }

  lemma SeparatorFails(n: nat, wrong: string, k: nat, ulongMax: nat)
    requires WrongSeparator(wrong) && k > 0
    ensures Numbers(Decimal(n) + wrong, k + 1, ulongMax) == None
  {
    hide StrToUl, Decimal;
    ReadsBack(n, wrong, ulongMax);
    var s, end := Decimal(n) + wrong, |Decimal(n)|;
    assert end < |s| ==> s[end] == wrong[0];
  }

  lemma BlankFails(blank: string, k: nat, ulongMax: nat)
    requires k > 0 && forall c :: c in blank ==> !('0' <= c <= '9')
    ensures Numbers(blank, k, ulongMax) == None
  {
    hide StrToUl;
    NoDigitNoNumber(blank, ulongMax);
  }

  // Parsing a printed version gives it back, and so does parsing it with any text after
  // it that does not start with a digit.
  lemma {:induction false} ParseInvertsPrint(v: Version, rest: string, ulongMax: nat)
    requires v.Valid() && ulongMax > 65535 && (rest == "" || !IsDigit(rest[0]))
    ensures ParseSpec(Print(v) + rest, ulongMax) == Some(v)
  {
    hide ParseSpec, Decimal;
    DottedNumbersParse(v.major, v.minor, v.patch, rest, ulongMax);
    assert Print(v) + rest == Decimal(v.major) + "." + (Decimal(v.minor) + "." + (Decimal(v.patch) + rest));
  }

  // Major, minor and patch in decimal, in that order.
  lemma PrintedExample()
    ensures Print(Version(1, 20, 305)) == "1.20.305"
  {
    assert Decimal(1) == "1" && Decimal(2) == "2" && Decimal(20) == "20";
    assert Decimal(3) == "3" && Decimal(30) == "30" && Decimal(305) == "305";
  }

  // Printing is injective.
  lemma PrintInjective(a: Version, b: Version)
    requires a.Valid() && b.Valid() && Print(a) == Print(b)
    ensures a == b
  {
    assert Print(a) + "" == Print(a) && Print(b) + "" == Print(b);
    ParseInvertsPrint(a, "", 65536);
    ParseInvertsPrint(b, "", 65536);
  }

  lemma {:induction false} DecimalLength(n: nat)
    ensures n < 10 ==> |Decimal(n)| == 1
    ensures 10 <= n < 100 ==> |Decimal(n)| == 2
    ensures 100 <= n < 1000 ==> |Decimal(n)| == 3
    ensures n < 100000 ==> |Decimal(n)| <= 5
  {
    if n >= 10 {
      DecimalLength(n / 10);
      if n / 10 >= 1000 {
        DecimalLength(n / 100);
        assert n / 10 / 10 == n / 100;
        assert |Decimal(n / 10)| == |Decimal(n / 100)| + 1;
      }
    }
  }

  // The text takes 5 to 13 characters, so it fits the 16-byte buffer with its terminator.
  lemma {:induction false} PrintFits(v: Version)
    requires v.Valid()
    ensures 5 <= |Print(v)| <= 13
  {
    DecimalLength(v.major);
    DecimalLength(v.minor);
    DecimalLength(v.patch);
  }

  // A version as one number, major first.
  function Rank(v: Version): int {
    v.major * 0x100_0000 + v.minor * 0x1_0000 + v.patch
  }

  // The sign of the comparison is that of the ranks, so it is a total order.
  lemma {:induction false} CompareIsRankOrder(a: Version, b: Version)
    requires a.Valid() && b.Valid()
    ensures Compare(a, b) < 0 <==> Rank(a) < Rank(b)
    ensures Compare(a, b) == 0 <==> a == b
    ensures Rank(a) == Rank(b) <==> a == b
  {
  }
}
