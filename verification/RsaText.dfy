/** The textual forms of RSA messages and public keys: the bracketed list both
    implementations print, and the two parsers that read it. */
module RsaText {
  import opened Basics
  import opened Arithmetic
  import opened RsaMath
  import opened Text
  import RsaHandler

  const OPEN: Byte := 91
  const CLOSE: Byte := 93
  const MINUS: Byte := 45
  const PLUS: Byte := 43
  const SEPARATOR: Bytes := [44, 32]

  // ---------------------------------------------------------------- printing

  function Items(xs: seq<int>): (r: seq<Bytes>)
    ensures |r| == |xs| && forall i :: 0 <= i < |xs| ==> r[i] == ToText(xs[i])
  {
    seq(|xs|, i requires 0 <= i < |xs| => ToText(xs[i]))
  }

  function PrintList(xs: seq<int>): Bytes {
    [OPEN] + (if xs == [] then [] else Join(Items(xs), SEPARATOR)) + [CLOSE]
  }

  /** RSAHandler.cpp `encryptToString` once the numbers are computed. */
  method PrintNumbers(numbers: seq<int>) returns (result: Bytes)
    ensures result == PrintList(numbers)
    ensures result == [91] + (if numbers == [] then [] else Join(Items(numbers), [44, 32])) + [93]
  {
    result := [OPEN];
    if numbers != [] {
      ghost var items := Items(numbers);
      result := result + ToText(numbers[0]);
      var i := 1;
      while i < |numbers|
        invariant 1 <= i <= |numbers|
        invariant result == [OPEN] + Join(items[..i], SEPARATOR)
      {
        PrintStep(items, i);
        result := result + SEPARATOR + ToText(numbers[i]);
        i := i + 1;
      }
      assert items[..|numbers|] == items;
    }
    result := result + [CLOSE];
  }

  lemma PrintStep(items: seq<Bytes>, i: nat)
    requires 1 <= i < |items|
    ensures ([OPEN] + Join(items[..i], SEPARATOR)) + SEPARATOR + items[i]
         == [OPEN] + Join(items[..i + 1], SEPARATOR)
  {
    JoinSnoc(items[..i], items[i], SEPARATOR);
    assert items[..i + 1] == items[..i] + [items[i]];
    var body := Join(items[..i], SEPARATOR);
    assert ([OPEN] + body) + SEPARATOR + items[i] == [OPEN] + (body + SEPARATOR + items[i]);
  }

  // ----------------------------------------------------------------- parsing

  /** Positions of the brackets as `find` and `substr` treat them, missing ones included. */
  function Inner(s: Bytes): Bytes {
    var open, close := Find(s, [OPEN], 0), Find(s, [CLOSE], 0);
    var start := if open.Some? then open.value + 1 else 0;
    if close.Some? && start <= close.value then s[start..close.value] else s[start..]
  }

  predicate AllNumbers(parts: seq<Bytes>) {
    forall i :: 0 <= i < |parts| ==> Stoll(parts[i]).Number?
  }

  function Numbers(parts: seq<Bytes>): (r: seq<int>)
    requires AllNumbers(parts)
    ensures |r| == |parts| && forall i :: 0 <= i < |parts| ==> Stoll(parts[i]) == Number(r[i])
  {
    seq(|parts|, i requires 0 <= i < |parts| => Stoll(parts[i]).value)
  }

  /** `None` stands for the exception of the first malformed number. */
  function ParseParts(parts: seq<Bytes>): Option<seq<int>> {
    if AllNumbers(parts) then Some(Numbers(parts)) else None
  }

  function ParseList(s: Bytes): Option<seq<int>> {
    ParseParts(Split(Inner(s), SEPARATOR))
  }

  lemma SplitUnfold(s: Bytes, d: Bytes)
    requires |d| > 0
    ensures var f := Find(s, d, 0);
      Split(s, d) == if f.None? then [s] else [s[..f.value]] + Split(s[f.value + |d|..], d)
  {
    var f := Find(s, d, 0);
    if f.Some? {
      var next := f.value + |d|;
      SplitFromSuffix(s, d, next, 0);
      assert s[0..f.value] == s[..f.value];
      assert Split(s, d) == [s[..f.value]] + SplitFrom(s, d, next);
    } else {
      assert s[0..] == s;
    }
  }

  lemma AppendNumber(done: seq<Bytes>, part: Bytes)
    requires AllNumbers(done) && Stoll(part).Number?
    ensures AllNumbers(done + [part]) && Numbers(done + [part]) == Numbers(done) + [Stoll(part).value]
  {
  }

  /** RSAHandler.cpp `parseEncryptedString`: cut off numbers until no separator is left. */
  method ParseEncryptedString(encrypted: Bytes) returns (r: Option<seq<int>>)
    ensures r == ParseList(encrypted)
  {
    var numbers := Inner(encrypted);
    var encryptedList: seq<int> := [];
    var pos := Find(numbers, SEPARATOR, 0);
    ghost var parts := Split(numbers, SEPARATOR);
    ghost var done: seq<Bytes> := [];
    while pos.Some?
      invariant pos == Find(numbers, SEPARATOR, 0)
      invariant parts == done + Split(numbers, SEPARATOR)
      invariant AllNumbers(done) && encryptedList == Numbers(done)
      decreases |numbers|
    {
      var part, next := numbers[..pos.value], pos.value + 2;
      ghost var rest := Split(numbers[next..], SEPARATOR);
      SplitUnfold(numbers, SEPARATOR);
      Regroup(done, part, rest);
      var number := Stoll(part);
      if !number.Number? {
        assert parts[|done|] == part;
        return None;
      }
      AppendNumber(done, part);
      encryptedList := encryptedList + [number.value];
      done := done + [part];
      numbers := numbers[next..];
      pos := Find(numbers, SEPARATOR, 0);
    }
    SplitUnfold(numbers, SEPARATOR);
    assert parts == done + [numbers];
    var last := Stoll(numbers);
    if !last.Number? {
      assert parts[|done|] == numbers;
      return None;
    }
    AppendNumber(done, numbers);
    return Some(encryptedList + [last.value]);
  }

  // ------------------------------------------------------------- round trips

  predicate AllInt64(xs: seq<int>) {
    forall i :: 0 <= i < |xs| ==> -TWO_63 <= xs[i] < TWO_63
  }

  lemma ParseItems(xs: seq<int>)
    requires AllInt64(xs)
    ensures ParseParts(Items(xs)) == Some(xs)
  {
    forall i | 0 <= i < |xs|
      ensures Stoll(Items(xs)[i]) == Number(xs[i])
    {
      ParseToText(xs[i], [], -TWO_63, TWO_63 - 1);
      assert ToText(xs[i]) + [] == ToText(xs[i]);
    }
    assert Numbers(Items(xs)) == xs;
  }

  lemma SplitItems(xs: seq<int>)
    requires xs != []
    ensures Split(Join(Items(xs), SEPARATOR), SEPARATOR) == Items(xs)
  {
    var parts := Items(xs);
    forall i | 0 <= i < |parts|
      ensures Clean(parts[i], SEPARATOR) && !Contains(parts[i], SEPARATOR)
    {
      NumberTextPlain(xs[i]);
      WithoutDelimiterByte(parts[i], SEPARATOR);
    }
    SplitJoin(parts, SEPARATOR);
  }

  /** No bracket occurs inside a printed list. */
  lemma {:induction false} NoBracketInside(parts: seq<Bytes>, b: Byte)
    requires |parts| >= 1 && b !in SEPARATOR && forall i :: 0 <= i < |parts| ==> b !in parts[i]
    ensures b !in Join(parts, SEPARATOR)
    decreases |parts|
  {
    if |parts| > 1 {
      NoBracketInside(parts[1..], b);
    }
  }

  lemma InnerOfPrinted(body: Bytes)
    requires OPEN !in body && CLOSE !in body
    ensures Inner([OPEN] + body + [CLOSE]) == body
  {
    var s := [OPEN] + body + [CLOSE];
    FirstByte([], OPEN, body + [CLOSE]);
    FirstByte([OPEN] + body, CLOSE, []);
    assert s == [] + [OPEN] + (body + [CLOSE]);
    assert s == ([OPEN] + body) + [CLOSE] + [];
  }

  lemma FirstByte(before: Bytes, b: Byte, after: Bytes)
    requires b !in before
    ensures Find(before + [b] + after, [b], 0) == Some(|before|)
  {
    FindInJoin(before, [b], after, 0);
    WithoutDelimiterByte(before, [b]);
  }

  /** A printed list is read back by RSAHandler.cpp unless it is empty: then `stoll` throws. */
  lemma ListRoundTrip(xs: seq<int>)
    requires AllInt64(xs)
    ensures ParseList(PrintList(xs)) == if xs == [] then None else Some(xs)
  {
    if xs == [] {
      InnerOfPrinted([]);
      SplitUnfold([], SEPARATOR);
      assert !Stoll(Split([], SEPARATOR)[0]).Number?;
    } else {
      BodyPlain(xs);
      InnerOfPrinted(Join(Items(xs), SEPARATOR));
      SplitItems(xs);
      ParseItems(xs);
    }
  }

  /** What stands before and after a list makes no difference. */
  lemma ListInContext(xs: seq<int>, before: Bytes, after: Bytes)
    requires AllInt64(xs) && xs != [] && OPEN !in before && CLOSE !in before
    ensures ParseList(before + PrintList(xs) + after) == Some(xs)
  {
    var body := Join(Items(xs), SEPARATOR);
    BodyPlain(xs);
    InnerInContext(before, body, after);
    SplitItems(xs);
    ParseItems(xs);
  }

  lemma InnerInContext(before: Bytes, body: Bytes, after: Bytes)
    requires OPEN !in before && CLOSE !in before && OPEN !in body && CLOSE !in body
    ensures Inner(before + ([OPEN] + body + [CLOSE]) + after) == body
  {
    var s := before + ([OPEN] + body + [CLOSE]) + after;
    assert s == before + [OPEN] + (body + [CLOSE] + after) by {
      assert [OPEN] + body + [CLOSE] == [OPEN] + (body + [CLOSE]);
    }
    FirstByte(before, OPEN, body + [CLOSE] + after);
    assert s == (before + [OPEN] + body) + [CLOSE] + after;
    FirstByte(before + [OPEN] + body, CLOSE, after);
    assert s[|before| + 1..|before| + 1 + |body|] == body;
  }

  /** Nor does a bracket that is missing. */
  lemma ListUnbracketed(xs: seq<int>, open: Bytes, close: Bytes)
    requires AllInt64(xs) && xs != [] && (open == [] || open == [OPEN]) && (close == [] || close == [CLOSE])
    ensures ParseList(open + Join(Items(xs), SEPARATOR) + close) == Some(xs)
  {
    BodyPlain(xs);
    InnerUnbracketed(open, Join(Items(xs), SEPARATOR), close);
    SplitItems(xs);
    ParseItems(xs);
  }

  lemma InnerUnbracketed(open: Bytes, body: Bytes, close: Bytes)
    requires OPEN !in body && CLOSE !in body
    requires (open == [] || open == [OPEN]) && (close == [] || close == [CLOSE])
    ensures Inner(open + body + close) == body
  {
    var s := open + body + close;
    FindBracket([], open, OPEN, body + close);
    assert s == [] + open + (body + close);
    FindBracket(open + body, close, CLOSE, []);
    assert s == (open + body) + close + [];
  }

  lemma FindBracket(before: Bytes, bracket: Bytes, b: Byte, after: Bytes)
    requires b !in before && b !in after && (bracket == [] || bracket == [b])
    ensures Find(before + bracket + after, [b], 0) == if bracket == [] then None else Some(|before|)
  {
    if bracket == [] {
      WithoutDelimiterByte(before + bracket + after, [b]);
    } else {
      FirstByte(before, b, after);
    }
  }

  lemma BodyPlain(xs: seq<int>)
    requires xs != []
    ensures OPEN !in Join(Items(xs), SEPARATOR) && CLOSE !in Join(Items(xs), SEPARATOR)
  {
    forall i | 0 <= i < |xs|
      ensures OPEN !in Items(xs)[i] && CLOSE !in Items(xs)[i]
    {
      NumberTextPlain(xs[i]);
    }
    NoBracketInside(Items(xs), OPEN);
    NoBracketInside(Items(xs), CLOSE);
  }

  /** The whole textual path: a nonempty message is recovered exactly when its characters are. */
  lemma SecretTextRoundTrip(m: Bytes, p: nat, q: nat, n: nat, e: nat, d: nat)
    requires KeyPair(p, q, n, e, d) && n <= RsaHandler.SAFE_MODULUS
    ensures n > 0
    ensures var received := ParseList(PrintList(RsaHandler.EncryptSpec(m, e, n)));
      (received.Some? && RsaHandler.DecryptSpec(received.value, d, n) == m)
      <==> m != [] && forall i :: 0 <= i < |m| ==> Recoverable(SignedChar(m[i]), p, q)
  {
    RsaHandler.MessageRoundTrip(m, p, q, n, e, d);
    ListRoundTrip(RsaHandler.EncryptSpec(m, e, n));
  }

  // ------------------------------------------------------ the Kotlin parser

  /** `String.toULong`: an optional plus, then only digits. */
  function ToULong(s: Bytes): (r: Option<nat>)
    ensures r.Some? ==> r.value < TWO_64
  {
    var t := if |s| > 1 && s[0] == PLUS then s[1..] else s;
    if t != [] && AllDigits(t) && DigitsValue(t) < TWO_64 then Some(DigitsValue(t)) else None
  }

  predicate AllULong(parts: seq<Bytes>) {
    forall i :: 0 <= i < |parts| ==> ToULong(parts[i]).Some?
  }

  function ULongParts(parts: seq<Bytes>): Option<seq<int>> {
    if AllULong(parts) then Some(seq(|parts|, i requires 0 <= i < |parts| => ToULong(parts[i]).value)) else None
  }

  /** RSAHandler.kt `decrypt(String)`: drop the first and last character and split. */
  function ParseListKotlin(s: Bytes): Option<seq<int>> {
    if |s| < 2 then None else ULongParts(Split(s[1..|s| - 1], SEPARATOR))
  }

  lemma ULongText(n: int)
    requires -TWO_63 <= n < TWO_63
    ensures ToULong(ToText(n)) == if n >= 0 then Some(n) else None
  {
    DigitsRoundTrip(Abs(n));
    var t := ToText(n);
    if n >= 0 {
      assert IsDigit(t[0]);
    } else {
      assert t[0] == MINUS;
    }
  }

  lemma ULongItems(xs: seq<int>)
    requires AllInt64(xs)
    ensures ULongParts(Items(xs)) == if forall i :: 0 <= i < |xs| ==> xs[i] >= 0 then Some(xs) else None
  {
    var parts := Items(xs);
    forall i | 0 <= i < |xs|
      ensures ToULong(parts[i]) == if xs[i] >= 0 then Some(xs[i]) else None
    {
      ULongText(xs[i]);
    }
    if AllULong(parts) {
      assert ULongParts(parts).value == xs;
    } else {
      var i :| 0 <= i < |parts| && ToULong(parts[i]).None?;
      assert xs[i] < 0;
    }
  }

  /** The mapping server reads a printed list exactly when it is nonempty and free of negative
      numbers, which the C++ side produces for characters of 128 and above. */
  lemma KotlinListRoundTrip(xs: seq<int>)
    requires AllInt64(xs)
    ensures ParseListKotlin(PrintList(xs))
         == if xs != [] && forall i :: 0 <= i < |xs| ==> xs[i] >= 0 then Some(xs) else None
  {
    var body := if xs == [] then [] else Join(Items(xs), SEPARATOR);
    var s := PrintList(xs);
    assert s[1..|s| - 1] == body;
    if xs == [] {
      SplitUnfold([], SEPARATOR);
      assert ToULong(Split([], SEPARATOR)[0]).None?;
    } else {
      SplitItems(xs);
      ULongItems(xs);
    }
  }

  /** It never looks at the brackets: the first and the last character are dropped whatever they are. */
  lemma KotlinDropsEnds(first: Byte, body: Bytes, last: Byte)
    ensures ParseListKotlin([first] + body + [last]) == ParseListKotlin([OPEN] + body + [CLOSE])
    ensures ParseListKotlin([first]) == None && ParseListKotlin([]) == None
  {
    var s, t := [first] + body + [last], [OPEN] + body + [CLOSE];
    assert s[1..|s| - 1] == body && t[1..|t| - 1] == body;
  }

  /** One plus sign is allowed, blanks and a minus sign are not. */
  lemma ULongIff(s: Bytes, value: nat)
    ensures ToULong(s) == Some(value)
       <==> value < TWO_64
            && ((s != [] && AllDigits(s) && DigitsValue(s) == value)
                || (|s| > 1 && s[0] == 43 && AllDigits(s[1..]) && DigitsValue(s[1..]) == value))
  {
    if s != [] && s[0] == PLUS {
      assert !IsDigit(s[0]);
    }
  }

  // ------------------------------------------------------------- public keys

  function FormatForSending(publicKey: int, modulus: int): Bytes {
    ToText(publicKey) + SPLITER + ToText(modulus)
  }

  /** The peer recovers both numbers, with or without the newline that ends the message. */
  lemma KeyTextRoundTrip(publicKey: int, modulus: int, tail: Bytes)
    requires AllInt64([publicKey, modulus]) && (tail == [] || tail == [NEWLINE])
    ensures var parts := Split(FormatForSending(publicKey, modulus) + tail, SPLITER);
      |parts| == 2 && Stoll(parts[0]) == Number(publicKey) && Stoll(parts[1]) == Number(modulus)
  {
    assert [publicKey, modulus][0] == publicKey && [publicKey, modulus][1] == modulus;
    var parts := [ToText(publicKey), ToText(modulus) + tail];
    NumberTextPlain(publicKey);
    NumberTextPlain(modulus);
    WithoutDelimiterByte(parts[0], SPLITER);
    WithoutDelimiterByte(parts[1], SPLITER);
    SplitJoin(parts, SPLITER);
    assert Join(parts, SPLITER) == parts[0] + SPLITER + parts[1] by {
      assert parts[1..] == [parts[1]];
    }
    assert FormatForSending(publicKey, modulus) + tail == parts[0] + SPLITER + parts[1];
    ParseToText(publicKey, [], -TWO_63, TWO_63 - 1);
    assert parts[0] + [] == parts[0];
    ParseToText(modulus, tail, -TWO_63, TWO_63 - 1);
  }
}
