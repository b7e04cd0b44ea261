/** The text layer of the wire formats: searching, the `::::` splitter of
    ServerProject/Utility.cpp, and decimal numbers. */
module Text {
  import opened Basics

  const COLON: Byte := 58

  const SPLITER: Bytes := [COLON, COLON, COLON, COLON]

  /** The bytes of a literal. */
  function Ascii(s: string): (r: Bytes)
    ensures |r| == |s|
  {
    seq(|s|, i requires 0 <= i < |s| => (s[i] as int % 256) as Byte)
  }

  // --------------------------------------------------------------- searching

  predicate MatchesAt(s: Bytes, d: Bytes, i: int) {
    0 <= i <= |s| && d <= s[i..]
  }

  /** `std::string::find`. */
  function Find(s: Bytes, d: Bytes, start: nat): (r: Option<nat>)
    ensures r.Some? ==> start <= r.value && r.value + |d| <= |s|
    decreases |s| - start
  {
    if start + |d| > |s| then None
    else if MatchesAt(s, d, start) then Some(start)
    else Find(s, d, start + 1)
  }

  predicate Contains(s: Bytes, d: Bytes) {
    Find(s, d, 0).Some?
  }

  /** The result is the least match at or after `start`, and there is one whenever anything matches. */
  lemma {:induction false} FindLeast(s: Bytes, d: Bytes, start: nat)
    ensures var r := Find(s, d, start);
      (r.Some? ==> MatchesAt(s, d, r.value))
      && forall i :: start <= i && (r.Some? ==> i < r.value) ==> !MatchesAt(s, d, i)
    decreases |s| - start
  {
    if start + |d| <= |s| && !MatchesAt(s, d, start) {
      FindLeast(s, d, start + 1);
    }
  }

  lemma MatchElement(s: Bytes, d: Bytes, i: int, k: nat)
    requires MatchesAt(s, d, i) && k < |d|
    ensures s[i + k] == d[k]
  {
  }

  lemma MatchInPrefix(part: Bytes, d: Bytes, rest: Bytes, i: nat)
    requires i + |d| <= |part|
    ensures MatchesAt(part + rest, d, i) <==> MatchesAt(part, d, i)
  {
  }

  lemma MatchInSuffix(s: Bytes, d: Bytes, start: nat, k: nat)
    requires start + k <= |s|
    ensures MatchesAt(s, d, start + k) <==> MatchesAt(s[start..], d, k)
  {
  }

  /** Searching a suffix is searching from its start. */
  lemma {:induction false} FindInSuffix(s: Bytes, d: Bytes, start: nat, k: nat)
    requires start + k <= |s|
    ensures Find(s, d, start + k).Some? <==> Find(s[start..], d, k).Some?
    ensures Find(s, d, start + k).Some? ==>
      Find(s, d, start + k).value == start + Find(s[start..], d, k).value
    decreases |s| - k
  {
    MatchInSuffix(s, d, start, k);
    if start + k < |s| {
      FindInSuffix(s, d, start, k + 1);
    }
  }

  // ------------------------------------------------------ splitting, joining

  /** The splitter's loop from a position in the input. */
  function SplitFrom(s: Bytes, d: Bytes, start: nat): (parts: seq<Bytes>)
    requires |d| > 0 && start <= |s|
    ensures |parts| >= 1
    decreases |s| - start
  {
    var f := Find(s, d, start);
    if f.None? then [s[start..]] else [s[start..f.value]] + SplitFrom(s, d, f.value + |d|)
  }

  function Split(s: Bytes, d: Bytes): (parts: seq<Bytes>)
    requires |d| > 0
    ensures |parts| >= 1
  {
    SplitFrom(s, d, 0)
  }

  function Join(parts: seq<Bytes>, d: Bytes): Bytes
    requires |parts| >= 1
  {
    if |parts| == 1 then parts[0] else parts[0] + d + Join(parts[1..], d)
  }

  lemma Regroup(done: seq<Bytes>, part: Bytes, rest: seq<Bytes>)
    ensures done + ([part] + rest) == (done + [part]) + rest
  {
  }

  method SplitString(input: Bytes, delimiter: Bytes) returns (tokens: seq<Bytes>)
    requires |delimiter| > 0
    ensures tokens == Split(input, delimiter)
  {
    tokens := [];
    var start := 0;
    var end := Find(input, delimiter, start);
    while end.Some?
      invariant start <= |input| && end == Find(input, delimiter, start)
      invariant Split(input, delimiter) == tokens + SplitFrom(input, delimiter, start)
      decreases |input| - start
    {
      var token, next := input[start..end.value], end.value + |delimiter|;
      ghost var rest := SplitFrom(input, delimiter, next);
      assert SplitFrom(input, delimiter, start) == [token] + rest;
      Regroup(tokens, token, rest);
      tokens, start := tokens + [token], next;
      end := Find(input, delimiter, start);
    }
    tokens := tokens + [input[start..]];
  }

  /** Joining undoes splitting on every input. */
  lemma {:induction false} JoinSplit(s: Bytes, d: Bytes, start: nat)
    requires |d| > 0 && start <= |s|
    ensures Join(SplitFrom(s, d, start), d) == s[start..]
    decreases |s| - start
  {
    var f := Find(s, d, start);
    if f.Some? {
      var end, next := f.value, f.value + |d|;
      FindLeast(s, d, start);
      JoinSplit(s, d, next);
      JoinCons(s[start..end], SplitFrom(s, d, next), d);
      SliceAround(s, d, start, end);
    }
  }

  lemma JoinCons(part: Bytes, tail: seq<Bytes>, d: Bytes)
    requires |tail| >= 1
    ensures Join([part] + tail, d) == part + d + Join(tail, d)
  {
  }

  lemma SliceAround(s: Bytes, d: Bytes, start: nat, end: nat)
    requires start <= end && MatchesAt(s, d, end)
    ensures s[start..] == s[start..end] + d + s[end + |d|..]
  {
  }

  lemma {:induction false} JoinSnoc(parts: seq<Bytes>, last: Bytes, d: Bytes)
    requires |parts| >= 1
    ensures Join(parts + [last], d) == Join(parts, d) + d + last
    decreases |parts|
  {
    var all := parts + [last];
    if |parts| == 1 {
      assert all[1..] == [last];
    } else {
      JoinSnoc(parts[1..], last, d);
      assert all[1..] == parts[1..] + [last];
    }
  }

  /** A part that ends exactly where the delimiter following it begins. */
  predicate Clean(part: Bytes, d: Bytes) {
    Find(part + d, d, 0) == Some(|part|)
  }

  /** The lists of parts that survive being joined. */
  predicate Splittable(parts: seq<Bytes>, d: Bytes) {
    |parts| >= 1 && !Contains(parts[|parts| - 1], d)
    && forall i :: 0 <= i < |parts| - 1 ==> Clean(parts[i], d)
  }

  /** The first match in a joined text lies at or before the end of the first part,
      and does not depend on what follows the delimiter. */
  lemma {:induction false} FindInJoin(part: Bytes, d: Bytes, rest: Bytes, k: nat)
    requires k <= |part|
    ensures Find(part + d + rest, d, k) == Find(part + d, d, k)
    ensures Find(part + d, d, k).Some? && Find(part + d, d, k).value <= |part|
    decreases |part| - k
  {
    var s := part + d;
    MatchInPrefix(s, d, rest, k);
    if k == |part| {
      assert s[k..] == d;
    } else if !MatchesAt(s, d, k) {
      FindInJoin(part, d, rest, k + 1);
    }
  }

  lemma {:induction false} SplitFromSuffix(s: Bytes, d: Bytes, start: nat, k: nat)
    requires |d| > 0 && start + k <= |s|
    ensures SplitFrom(s, d, start + k) == SplitFrom(s[start..], d, k)
    decreases |s| - k
  {
    var t := s[start..];
    FindInSuffix(s, d, start, k);
    var f := Find(t, d, k);
    if f.Some? {
      SplitFromSuffix(s, d, start, f.value + |d|);
      SplitFromFound(t, d, k);
      SplitFromFound(s, d, start + k);
      SliceOfSlice(s, start, k, f.value);
    } else {
      SliceOfSlice(s, start, k, |t|);
    }
  }

  lemma SliceOfSlice(s: Bytes, start: nat, k: nat, end: nat)
    requires start + end <= |s| && k <= end
    ensures s[start..][k..end] == s[start + k..start + end]
    ensures s[start..][k..] == s[start + k..]
  {
  }

  lemma SplitFromFound(s: Bytes, d: Bytes, start: nat)
    requires |d| > 0 && start <= |s| && Find(s, d, start).Some?
    ensures var end := Find(s, d, start).value;
      SplitFrom(s, d, start) == [s[start..end]] + SplitFrom(s, d, end + |d|)
  {
  }

  /** Splitting undoes joining on exactly the splittable lists. */
  lemma {:induction false} SplitJoin(parts: seq<Bytes>, d: Bytes)
    requires |d| > 0 && |parts| >= 1
    ensures Split(Join(parts, d), d) == parts <==> Splittable(parts, d)
    decreases |parts|
  {
    if |parts| == 1 {
      SplitSingle(parts[0], d);
    } else {
      SplitJoin(parts[1..], d);
      SplittableTail(parts, d);
      SplitFirst(parts[0], Join(parts[1..], d), parts[1..], d);
      assert parts == [parts[0]] + parts[1..];
    }
  }

  lemma SplitSingle(part: Bytes, d: Bytes)
    requires |d| > 0
    ensures Split(part, d) == [part] <==> !Contains(part, d)
  {
  }

  lemma SplitFirst(p: Bytes, rest: Bytes, tail: seq<Bytes>, d: Bytes)
    requires |d| > 0
    ensures Split(p + d + rest, d) == [p] + tail <==> Clean(p, d) && Split(rest, d) == tail
  {
    var s := p + d + rest;
    FindInJoin(p, d, rest, 0);
    var i := Find(s, d, 0).value;
    var u := SplitFrom(s, d, i + |d|);
    assert Split(s, d) == [s[0..i]] + u;
    ConsInjective(s[0..i], u, p, tail);
    if i == |p| {
      assert s[0..i] == p && s[i + |d|..] == rest;
      SplitFromSuffix(s, d, i + |d|, 0);
    }
  }

  lemma ConsInjective(a: Bytes, s: seq<Bytes>, b: Bytes, t: seq<Bytes>)
    ensures [a] + s == [b] + t <==> a == b && s == t
  {
    assert ([a] + s)[0] == a && ([a] + s)[1..] == s;
    assert ([b] + t)[0] == b && ([b] + t)[1..] == t;
  }

  lemma SplittableTail(parts: seq<Bytes>, d: Bytes)
    requires |parts| >= 2
    ensures Splittable(parts, d) <==> Clean(parts[0], d) && Splittable(parts[1..], d)
  {
  }

  /** Whatever a split produces is splittable, so split after join after split changes nothing. */
  lemma SplitIsSplittable(s: Bytes, d: Bytes)
    requires |d| > 0
    ensures Join(Split(s, d), d) == s && Splittable(Split(s, d), d)
  {
    JoinSplit(s, d, 0);
    assert s[0..] == s;
    SplitJoin(Split(s, d), d);
  }

  /** For the self-overlapping delimiter: a part must not contain it and must not end in a colon. */
  lemma CleanIff(part: Bytes)
    ensures Clean(part, SPLITER) <==> !Contains(part, SPLITER) && (part == [] || part[|part| - 1] != COLON)
  {
    var s, n := part + SPLITER, |part|;
    FindLeast(s, SPLITER, 0);
    FindLeast(part, SPLITER, 0);
    FindInJoin(part, SPLITER, [], 0);
    if n > 0 && part[n - 1] == COLON {
      EarlyMatch(part);
    } else if Contains(part, SPLITER) {
      MatchInPrefix(part, SPLITER, SPLITER, Find(part, SPLITER, 0).value);
    } else {
      var i := Find(s, SPLITER, 0).value;
      if i + 4 <= n {
        MatchInPrefix(part, SPLITER, SPLITER, i);
      } else if i < n {
        MatchElement(s, SPLITER, i, n - 1 - i);
      }
    }
  }

  lemma EarlyMatch(part: Bytes)
    requires part != [] && part[|part| - 1] == COLON
    ensures MatchesAt(part + SPLITER, SPLITER, |part| - 1)
  {
  }

  /** A part without the first byte of the delimiter is always safe. */
  lemma WithoutDelimiterByte(part: Bytes, d: Bytes)
    requires |d| > 0 && d[0] !in part
    ensures Clean(part, d) && !Contains(part, d)
  {
    var s := part + d;
    FindLeast(s, d, 0);
    FindLeast(part, d, 0);
    FindInJoin(part, d, [], 0);
    var i := Find(s, d, 0).value;
    MatchElement(s, d, i, 0);
    if Contains(part, d) {
      MatchElement(part, d, Find(part, d, 0).value, 0);
    }
  }

  // --------------------------------------------------------- decimal numbers

  predicate IsDigit(b: Byte) {
    48 <= b <= 57
  }

  predicate AllDigits(s: Bytes) {
    forall i :: 0 <= i < |s| ==> IsDigit(s[i])
  }

  /** Utility.cpp `isNumber`; the empty string passes. */
  method IsNumber(input: Bytes) returns (r: bool)
    ensures r <==> AllDigits(input)
  {
    for i := 0 to |input|
      invariant AllDigits(input[..i])
    {
      if !IsDigit(input[i]) {
        return false;
      }
    }
    assert input[..|input|] == input;
    return true;
  }

  function Digits(n: nat): (s: Bytes)
    ensures |s| >= 1
  {
    if n < 10 then [(48 + n) as Byte] else Digits(n / 10) + [(48 + n % 10) as Byte]
  }

  function DigitsValue(s: Bytes): nat
    requires AllDigits(s)
  {
    if s == [] then 0
    else DigitsValue(s[..|s| - 1]) * 10 + (s[|s| - 1] - 48) as nat
  }

  /** Printing a number and reading it back. */
  lemma {:induction false} DigitsRoundTrip(n: nat)
    ensures AllDigits(Digits(n)) && DigitsValue(Digits(n)) == n
  {
    var s := Digits(n);
    if n < 10 {
      assert s[..0] == [];
    } else {
      DigitsRoundTrip(n / 10);
      assert s[..|s| - 1] == Digits(n / 10);
    }
  }

  /** `std::to_string`. */
  function ToText(n: int): Bytes {
    if n < 0 then [45] + Digits(-n) else Digits(n)
  }

  /** An address as client and nodes print it. */
  function PrintAddress(a: Address): Bytes {
    a.ip + SPLITER + ToText(a.port)
  }

  datatype Parsed = Number(value: int) | InvalidArgument | OutOfRange

  predicate IsSpace(b: Byte) {
    b == 32 || 9 <= b <= 13
  }

  function SkipSpaces(s: Bytes): Bytes {
    if s != [] && IsSpace(s[0]) then SkipSpaces(s[1..]) else s
  }

  function DigitPrefix(s: Bytes): (r: Bytes)
    ensures AllDigits(r)
  {
    if s != [] && IsDigit(s[0]) then [s[0]] + DigitPrefix(s[1..]) else []
  }

  function Ranged(digits: Bytes, negative: bool, low: int, high: int): Parsed
    requires AllDigits(digits)
  {
    var magnitude: int := DigitsValue(digits);
    var value := if negative then -magnitude else magnitude;
    if digits == [] then InvalidArgument
    else if low <= value <= high then Number(value)
    else OutOfRange
  }

  /** `std::stoi` and its relatives: blanks, a sign, then the longest run of digits. */
  function ParseInteger(s: Bytes, low: int, high: int): Parsed {
    var t := SkipSpaces(s);
    if t != [] && t[0] == 45 then Ranged(DigitPrefix(t[1..]), true, low, high)
    else if t != [] && t[0] == 43 then Ranged(DigitPrefix(t[1..]), false, low, high)
    else Ranged(DigitPrefix(t), false, low, high)
  }

  const INT32_MAX: int := 0x7fff_ffff

  /** `int` and `long` have 32 bits on the target platform. */
  function Stoi(s: Bytes): Parsed {
    ParseInteger(s, -INT32_MAX - 1, INT32_MAX)
  }

  function Stoll(s: Bytes): Parsed {
    ParseInteger(s, -TWO_63, TWO_63 - 1)
  }

  /** A run of digits ends where something else begins. */
  predicate EndsNumber(rest: Bytes) {
    rest == [] || !IsDigit(rest[0])
  }

  lemma {:induction false} DigitPrefixStops(s: Bytes, rest: Bytes)
    requires AllDigits(s) && EndsNumber(rest)
    ensures DigitPrefix(s + rest) == s
  {
    if s == [] {
      assert s + rest == rest;
    } else {
      DigitPrefixStops(s[1..], rest);
      assert (s + rest)[1..] == s[1..] + rest;
    }
  }

  lemma {:induction false} BlanksSkipped(blanks: Bytes, rest: Bytes)
    requires (forall b :: b in blanks ==> b == 32 || 9 <= b <= 13) && (rest == [] || !IsSpace(rest[0]))
    ensures SkipSpaces(blanks + rest) == rest
    decreases |blanks|
  {
    if blanks == [] {
      assert blanks + rest == rest;
    } else {
      assert blanks[0] in blanks && forall b :: b in blanks[1..] ==> b in blanks;
      BlanksSkipped(blanks[1..], rest);
      assert (blanks + rest)[1..] == blanks[1..] + rest;
    }
  }

  /** What a number in a text is read as: blanks before it are skipped, one sign may follow, the digits
      go on as long as they can, and whatever comes after them is ignored. */
  lemma ParseNumeral(blanks: Bytes, sign: Bytes, digits: Bytes, rest: Bytes, low: int, high: int)
    requires forall b :: b in blanks ==> b == 32 || 9 <= b <= 13
    requires (sign == [] || sign == [45] || sign == [43]) && AllDigits(digits) && digits != [] && EndsNumber(rest)
    ensures var magnitude: int := DigitsValue(digits);
      var value := if sign == [45] then -magnitude else magnitude;
      ParseInteger(blanks + (sign + digits + rest), low, high)
      == if low <= value <= high then Number(value) else OutOfRange
  {
    var t := sign + digits + rest;
    DigitPrefixStops(digits, rest);
    if sign == [] {
      assert t == digits + rest && IsDigit(t[0]);
    } else {
      assert t[1..] == digits + rest && t[0] == sign[0];
    }
    BlanksSkipped(blanks, t);
  }

  /** Without a digit where the number should be there is no number. */
  lemma NoNumeral(blanks: Bytes, sign: Bytes, rest: Bytes, low: int, high: int)
    requires forall b :: b in blanks ==> b == 32 || 9 <= b <= 13
    requires (sign == [] || sign == [45] || sign == [43]) && EndsNumber(rest)
    requires sign == [] && rest != [] ==> rest[0] != 45 && rest[0] != 43 && !IsSpace(rest[0])
    ensures ParseInteger(blanks + (sign + rest), low, high) == InvalidArgument
  {
    var t := sign + rest;
    if sign == [] {
      assert t == rest;
    } else {
      assert t[1..] == rest && t[0] == sign[0];
    }
    BlanksSkipped(blanks, t);
  }

  /** Every number in range survives being printed and parsed, also when other text follows. */
  lemma ParseToText(n: int, rest: Bytes, low: int, high: int)
    requires low <= n <= high && EndsNumber(rest)
    ensures ParseInteger(ToText(n) + rest, low, high) == Number(n)
    ensures rest == [] ==> ParseInteger(ToText(n), low, high) == Number(n)
  {
    var sign, digits := if n < 0 then [45] else [], Digits(Abs(n));
    DigitsRoundTrip(Abs(n));
    ParseNumeral([], sign, digits, rest, low, high);
    assert [] + (sign + digits + rest) == ToText(n) + rest;
    assert rest == [] ==> ToText(n) + rest == ToText(n);
  }

  /** Validated digits parse to their value, unless there are none or too many. */
  lemma ParseAllDigits(s: Bytes, low: int, high: int)
    requires AllDigits(s) && low <= 0
    ensures ParseInteger(s, low, high)
         == if s == [] then InvalidArgument
            else if DigitsValue(s) <= high then Number(DigitsValue(s)) else OutOfRange
  {
    if s != [] {
      ParseNumeral([], [], s, [], low, high);
      assert [] + ([] + s + []) == s;
    }
  }

  /** No decimal number contains a colon, a comma or a blank. */
  lemma NumberTextPlain(n: int)
    ensures forall b :: b in ToText(n) ==> IsDigit(b) || b == 45
    ensures ToText(n) != []
  {
    DigitsRoundTrip(Abs(n));
  }
}
