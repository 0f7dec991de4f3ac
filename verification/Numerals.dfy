/** Numbers as text: decimal and hexadecimal printing, Rust's integer parsing, and
    splitting text at a separator. */
module Numerals {
  import opened Basics

  type Base = b: int | b == 10 || b == 16 witness 10

  function DigitChar(d: nat): char
    requires d < 16
  {
    "0123456789abcdef"[d]
  }

  /** The digit a character denotes; upper-case hex digits are accepted on input. */
  function DigitValue(c: char, b: Base): Option<nat> {
    if '0' <= c <= '9' then Some(c as int - '0' as int)
    else if b == 16 && 'a' <= c <= 'f' then Some(c as int - 'a' as int + 10)
    else if b == 16 && 'A' <= c <= 'F' then Some(c as int - 'A' as int + 10)
    else None
  }

  /** Shortest text of `n`, lower case, without leading zeros. */
  function Print(n: nat, b: Base): (s: string)
    ensures s != ""
    ensures forall c :: c in s ==> DigitValue(c, b).Some?
    decreases n
  {
    if n < b then [DigitChar(n)] else Print(n / b, b) + [DigitChar(n % b)]
  }

  /** Value of a text made of digits only; the empty text is no number. */
  function Parse(s: string, b: Base): Option<nat> {
    if s == "" then None
    else
      var d := DigitValue(s[|s| - 1], b);
      if d.None? then None
      else if |s| == 1 then d
      else
        var high := Parse(s[..|s| - 1], b);
        if high.None? then None else Some(high.value * b + d.value)
  }

  lemma DigitRoundTrip(d: nat, b: Base)
    requires d < b
    ensures DigitValue(DigitChar(d), b) == Some(d)
  {
  }

  lemma QuotientRemainder(n: nat, b: Base)
    ensures n / b * b + n % b == n
  {
  }

  lemma {:induction false} ParseSnoc(s: string, c: char, b: Base)
    requires s != ""
    ensures Parse(s + [c], b)
            == if DigitValue(c, b).None? || Parse(s, b).None? then None
               else Some(Parse(s, b).value * b + DigitValue(c, b).value)
  {
    assert (s + [c])[..|s|] == s;
  }

  lemma {:induction false} ParsePrint(n: nat, b: Base)
    ensures Parse(Print(n, b), b) == Some(n)
  {
    if n < b {
      DigitRoundTrip(n, b);
    } else {
      DigitRoundTrip(n % b, b);
      ParsePrint(n / b, b);
      QuotientRemainder(n, b);
      ParseSnoc(Print(n / b, b), DigitChar(n % b), b);
    }
  }

  lemma {:induction false} PrintInjective(m: nat, n: nat, b: Base)
    requires Print(m, b) == Print(n, b)
    ensures m == n
  {
    ParsePrint(m, b);
    ParsePrint(n, b);
  }

  /** Printed digits are lower case, without leading zeros. */
  lemma {:induction false} PrintShortest(n: nat, b: Base)
    ensures forall c :: c in Print(n, b) ==> IsLowerDigit(c)
    ensures Print(n, b)[0] == '0' <==> n == 0
    ensures n == 0 ==> Print(n, b) == "0"
  {
    LowerDigits(n % b);
    if n < b {
      LowerDigits(n);
    } else {
      PrintShortest(n / b, b);
    }
  }

  predicate IsLowerDigit(c: char) {
    '0' <= c <= '9' || 'a' <= c <= 'f'
  }

  lemma LowerDigits(d: nat)
    requires d < 16
    ensures IsLowerDigit(DigitChar(d)) && (DigitChar(d) == '0' <==> d == 0)
  {
  }

  function PrintInt(n: int): string {
    if n < 0 then "-" + Print(-n, 10) else Print(n, 10)
  }

  /** `str::parse::<i32>`: an optional sign, digits, no overflow. */
  function ParseI32(s: string): Option<I32> {
    if s == "" then None
    else
      var digits := if s[0] == '-' || s[0] == '+' then s[1..] else s;
      var n := Parse(digits, 10);
      if n.None? then None
      else
        var v: int := if s[0] == '-' then 0 - n.value else n.value;
        if I32_MIN <= v <= I32_MAX then Some(v) else None
  }

  /** `str::parse::<u64>`: an optional plus, digits, no overflow. */
  function ParseU64(s: string): Option<U64> {
    if s == "" then None
    else
      var n := Parse(if s[0] == '+' then s[1..] else s, 10);
      if n.Some? && n.value < U64_BOUND then Some(n.value) else None
  }

  lemma {:induction false} PrintedDigits(n: nat)
    ensures forall c :: c in Print(n, 10) ==> '0' <= c <= '9'
  {
    forall c | c in Print(n, 10) ensures '0' <= c <= '9' {
      assert DigitValue(c, 10).Some?;
    }
  }

  lemma {:induction false} ParseNegative(m: nat, n: I32)
    requires n == 0 - m
    ensures ParseI32("-" + Print(m, 10)) == Some(n)
  {
    ParsePrint(m, 10);
    assert ("-" + Print(m, 10))[1..] == Print(m, 10);
  }

  lemma {:induction false} ParseNonnegative(m: nat)
    requires m <= I32_MAX
    ensures ParseI32(Print(m, 10)) == Some(m)
  {
    ParsePrint(m, 10);
    PrintedDigits(m);
    assert Print(m, 10)[0] in Print(m, 10);
  }

  lemma {:induction false} PrintIntIs(n: int, m: nat)
    requires m == if n < 0 then 0 - n else n
    ensures PrintInt(n) == if n < 0 then "-" + Print(m, 10) else Print(m, 10)
  {
  }

  lemma ParseI32OfPrint(n: I32)
    ensures ParseI32(PrintInt(n)) == Some(n)
  {
    var m: nat := if n < 0 then 0 - n else n;
    var text := PrintInt(n);
    PrintIntIs(n, m);
    assert ParseI32(text) == Some(n) by {
      if n < 0 {
        ParseNegative(m, n);
      } else {
        ParseNonnegative(m);
      }
    }
  }

  lemma PrintIntChars(n: int)
    ensures forall c :: c in PrintInt(n) ==> c == '-' || '0' <= c <= '9'
  {
    PrintedDigits(if n < 0 then 0 - n else n);
  }

  lemma {:induction false} ParseU64OfPrint(n: nat)
    ensures ParseU64(Print(n, 10)) == if n < U64_BOUND then Some(n) else None
  {
    ParsePrint(n, 10);
    assert Print(n, 10)[0] in Print(n, 10);
  }

  /** A plus sign in front of digits is read over. */
  lemma {:induction false} PlusIsReadOver(m: nat)
    ensures ParseI32("+" + Print(m, 10)) == if m <= I32_MAX then Some(m) else None
    ensures ParseU64("+" + Print(m, 10)) == if m < U64_BOUND then Some(m) else None
  {
    ParsePrint(m, 10);
    assert ("+" + Print(m, 10))[1..] == Print(m, 10);
  }

  lemma {:induction false} NonDigit(s: string, i: nat)
    requires i < |s| && !('0' <= s[i] <= '9')
    ensures Parse(s, 10) == None
  {
    if i < |s| - 1 {
      NonDigit(s[..|s| - 1], i);
    }
  }

  /** Nothing but digits after an optional sign is a number, and a minus sign needs a signed one. */
  lemma OnlyDigitsParse(s: string, i: nat)
    requires i < |s| && !('0' <= s[i] <= '9')
    ensures i > 0 || (s[i] != '-' && s[i] != '+') ==> ParseI32(s) == None
    ensures i > 0 || s[i] != '+' ==> ParseU64(s) == None
  {
    NonDigit(s, i);
    if i > 0 {
      NonDigit(s[1..], i - 1);
    }
  }

  // ---- separators ---------------------------------------------------------------------------

  /** `str::split`: one more piece than there are separators. */
  function Split(s: string, sep: char): (r: seq<string>)
    ensures r != []
    ensures forall p :: p in r ==> sep !in p
  {
    if s == "" then [""]
    else
      var rest := Split(s[1..], sep);
      if s[0] == sep then [""] + rest else [[s[0]] + rest[0]] + rest[1..]
  }

  function Join(parts: seq<string>, sep: char): string
    requires parts != []
  {
    if |parts| == 1 then parts[0] else parts[0] + [sep] + Join(parts[1..], sep)
  }

  lemma {:induction false} SplitPiece(piece: string, rest: string, sep: char)
    requires sep !in piece
    ensures Split(piece, sep) == [piece]
    ensures Split(piece + [sep] + rest, sep) == [piece] + Split(rest, sep)
  {
    var s := piece + [sep] + rest;
    if piece == "" {
      assert s[1..] == rest;
    } else {
      assert s[1..] == piece[1..] + [sep] + rest;
      assert piece[0] in piece && [piece[0]] + piece[1..] == piece;
      SplitPiece(piece[1..], rest, sep);
      var tail := Split(s[1..], sep);
      assert tail[0] == piece[1..] && tail[1..] == Split(rest, sep);
    }
  }

  /** Splitting undoes joining when no piece contains the separator. */
  lemma {:induction false} SplitJoin(parts: seq<string>, sep: char)
    requires parts != [] && forall p :: p in parts ==> sep !in p
    ensures Split(Join(parts, sep), sep) == parts
  {
    if |parts| == 1 {
      SplitPiece(parts[0], "", sep);
    } else {
      SplitJoin(parts[1..], sep);
      SplitPiece(parts[0], Join(parts[1..], sep), sep);
    }
  }

  /** The first separator determines both sides. */
  lemma {:induction false} FirstSeparator(a: string, x: string, b: string, y: string, sep: char)
    requires sep !in a && sep !in b && a + [sep] + x == b + [sep] + y
    ensures a == b && x == y
  {
    if a == "" || b == "" {
      assert (a + [sep] + x)[0] == (b + [sep] + y)[0];
      assert a == "" && b == "";
      assert x == (a + [sep] + x)[1..] && y == (b + [sep] + y)[1..];
    } else {
      assert a[0] == (a + [sep] + x)[0] && b[0] == (b + [sep] + y)[0];
      assert (a + [sep] + x)[1..] == a[1..] + [sep] + x && (b + [sep] + y)[1..] == b[1..] + [sep] + y;
      FirstSeparator(a[1..], x, b[1..], y, sep);
      assert a == [a[0]] + a[1..] && b == [b[0]] + b[1..];
    }
  }
}
