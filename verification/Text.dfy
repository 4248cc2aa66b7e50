/** Strings as the C++ library sees them: blanks, pieces, numbers and their order. */
module Text {
  import opened Core

  /* ---- whitespace ---- */

  /** `isspace` in the C locale. */
  predicate IsSpace(c: char) {
    c == ' ' || c == '\t' || c == '\n' || c == '\r' || c == '\U{0B}' || c == '\U{0C}'
  }

  /** By their codes: the space, and the five control characters from tab to carriage return. */
  lemma WhitespaceIs(c: char)
    ensures IsSpace(c) <==> c as int == 32 || 9 <= c as int <= 13
  {
  }

  function TrimLeft(s: string): string {
    if s != "" && IsSpace(s[0]) then TrimLeft(s[1..]) else s
  }

  function TrimRight(s: string): string {
    if s != "" && IsSpace(s[|s| - 1]) then TrimRight(s[..|s| - 1]) else s
  }

  function Trim(s: string): string {
    TrimRight(TrimLeft(s))
  }

  /** True of the strings that `Trim` leaves alone. */
  predicate Trimmed(s: string) {
    s != "" ==> !IsSpace(s[0]) && !IsSpace(s[|s| - 1])
  }

  predicate Blank(s: string) {
    forall c :: c in s ==> IsSpace(c)
  }

  lemma {:induction false} TrimLeftAround(pad: string, s: string)
    requires Blank(pad) && Trimmed(s)
    ensures TrimLeft(pad + s) == s
  {
    if pad == "" {
      assert pad + s == s;
    } else {
      assert pad[0] in pad;
      assert (pad + s)[1..] == pad[1..] + s;
      TrimLeftAround(pad[1..], s);
    }
  }

  lemma {:induction false} TrimRightAround(s: string, pad: string)
    requires Blank(pad) && Trimmed(s)
    ensures TrimRight(s + pad) == s
  {
    if pad == "" {
      assert s + pad == s;
    } else {
      var t := s + pad;
      assert t[|t| - 1] == pad[|pad| - 1] && pad[|pad| - 1] in pad;
      assert t[..|t| - 1] == s + pad[..|pad| - 1];
      TrimRightAround(s, pad[..|pad| - 1]);
    }
  }

  lemma {:induction false} TrimLeftBlank(s: string)
    requires Blank(s)
    ensures TrimLeft(s) == ""
  {
    assert s + "" == s;
    TrimLeftAround(s, "");
  }

  lemma {:induction false} TrimLeftFacts(s: string)
    ensures var t := TrimLeft(s);
            && (t != "" ==> !IsSpace(t[0]))
            && |t| <= |s| && t == s[|s| - |t|..] && Blank(s[..|s| - |t|])
  {
    if s != "" && IsSpace(s[0]) {
      TrimLeftFacts(s[1..]);
      var t := TrimLeft(s);
      assert s[..|s| - |t|] == [s[0]] + s[1..][..|s[1..]| - |t|];
    }
  }

  lemma {:induction false} TrimRightFacts(s: string)
    ensures var t := TrimRight(s);
            && (t != "" ==> !IsSpace(t[|t| - 1]))
            && |t| <= |s| && t == s[..|t|] && Blank(s[|t|..])
  {
    if s != "" && IsSpace(s[|s| - 1]) {
      TrimRightFacts(s[..|s| - 1]);
      var t := TrimRight(s);
      assert s[|t|..] == s[..|s| - 1][|t|..] + [s[|s| - 1]];
    }
  }

  /** Trimming removes blanks at both ends, all of them, and nothing else. */
  lemma TrimFacts(s: string)
    ensures Trimmed(Trim(s))
    ensures Trim(s) == "" <==> Blank(s)
    ensures exists i, j :: 0 <= i <= j <= |s| && Trim(s) == s[i..j] && Blank(s[..i]) && Blank(s[j..])
  {
    TrimLeftFacts(s);
    var t := TrimLeft(s);
    TrimRightFacts(t);
    var r := Trim(s);
    var i := |s| - |t|;
    var j := i + |r|;
    assert r == s[i..j];
    assert s[j..] == t[|r|..];
    if Blank(s) {
      TrimLeftBlank(s);
    }
    assert r == "" ==> s == s[..i] + s[j..];
  }

  lemma TrimAround(left: string, s: string, right: string)
    requires Blank(left) && Blank(right) && Trimmed(s)
    ensures Trim(left + s + right) == s
  {
    if s == "" {
      assert Blank(left + s + right);
      TrimLeftBlank(left + s + right);
    } else {
      TrimFacts(left + s + right);
      TrimLeftPrefix(left, s, right);
      TrimRightAround(s, right);
    }
  }

  lemma {:induction false} TrimLeftPrefix(left: string, s: string, right: string)
    requires Blank(left) && s != "" && !IsSpace(s[0])
    ensures TrimLeft(left + s + right) == s + right
  {
    if left == "" {
      assert left + s + right == s + right;
    } else {
      assert left[0] in left;
      assert (left + s + right)[1..] == left[1..] + s + right;
      TrimLeftPrefix(left[1..], s, right);
    }
  }

  /* ---- pieces ---- */

  /** `boost::split` with one separator and no token compression: never an empty list. */
  function Split(s: string, sep: char): (parts: seq<string>)
    ensures |parts| >= 1
  {
    if s == "" then [""]
    else
      var rest := Split(s[1..], sep);
      if s[0] == sep then [""] + rest
      else [[s[0]] + rest[0]] + rest[1..]
  }

  function Join(parts: seq<string>, sep: string): string {
    if |parts| == 0 then ""
    else if |parts| == 1 then parts[0]
    else parts[0] + sep + Join(parts[1..], sep)
  }

  predicate Free(s: string, c: char) {
    c !in s
  }

  predicate AllFree(parts: seq<string>, c: char) {
    forall i :: 0 <= i < |parts| ==> Free(parts[i], c)
  }

  lemma {:induction false} SplitPiece(s: string, sep: char)
    requires Free(s, sep)
    ensures Split(s, sep) == [s]
  {
    if s != "" {
      assert s[0] in s;
      SplitPiece(s[1..], sep);
      assert s == [s[0]] + s[1..];
    }
  }

  lemma {:induction false} SplitHead(p: string, tail: string, sep: char)
    requires Free(p, sep)
    ensures Split(p + [sep] + tail, sep) == [p] + Split(tail, sep)
  {
    var s := p + [sep] + tail;
    if p == "" {
      assert s[1..] == tail;
    } else {
      assert p[0] in p && p == [p[0]] + p[1..];
      assert s[1..] == p[1..] + [sep] + tail;
      SplitHead(p[1..], tail, sep);
    }
  }

  /** Splitting undoes joining for separator-free pieces. */
  lemma {:induction false} SplitOfJoin(parts: seq<string>, sep: char)
    requires |parts| >= 1
    requires AllFree(parts, sep)
    ensures Split(Join(parts, [sep]), sep) == parts
  {
    if |parts| == 1 {
      SplitPiece(parts[0], sep);
    } else {
      var tail := Join(parts[1..], [sep]);
      SplitOfJoin(parts[1..], sep);
      SplitHead(parts[0], tail, sep);
      hide Split;
      assert Join(parts, [sep]) == parts[0] + [sep] + tail;
    }
  }

  /** Joining undoes splitting, and the pieces hold no separator. */
  lemma {:induction false} JoinOfSplit(s: string, sep: char)
    ensures Join(Split(s, sep), [sep]) == s
    ensures AllFree(Split(s, sep), sep)
  {
    if s != "" {
      JoinOfSplit(s[1..], sep);
      var rest := Split(s[1..], sep);
      if s[0] == sep {
        assert Split(s, sep)[1..] == rest;
      } else {
        assert Split(s, sep)[1..] == rest[1..];
        assert rest == [rest[0]] + rest[1..];
        assert Free(rest[0], sep);
      }
    }
  }

  /** Printing the pieces one by one, with a flag for the first one. */
  method PrintJoined(parts: seq<string>, sep: string) returns (text: string)
    ensures text == Join(parts, sep)
  {
    text := "";
    var first := true;
    for i := 0 to |parts|
      invariant first == (i == 0)
      invariant text == Join(parts[..i], sep)
    {
      if !first {
        text := text + sep;
      }
      first := false;
      text := text + parts[i];
      JoinSnoc(parts[..i], parts[i], sep);
      assert parts[..i + 1] == parts[..i] + [parts[i]];
    }
    assert parts[..|parts|] == parts;
  }

  lemma {:induction false} JoinSnoc(parts: seq<string>, last: string, sep: string)
    ensures Join(parts + [last], sep) == if parts == [] then last else Join(parts, sep) + sep + last
  {
    if |parts| > 1 {
      assert (parts + [last])[1..] == parts[1..] + [last];
      JoinSnoc(parts[1..], last, sep);
    } else if |parts| == 1 {
      assert (parts + [last])[1..] == [last];
    }
  }

  function QuoteAll(a: seq<string>): seq<string> {
    seq(|a|, i requires 0 <= i < |a| => "'" + a[i] + "'")
  }

  /** An array is printed as its elements in quotes, joined and in brackets. */
  lemma ArrayText(a: seq<string>)
    ensures Array(a).ToString() == "[" + Join(QuoteAll(a), ", ") + "]"
  {
    QuotedListIsJoin(a);
  }

  lemma {:induction false} QuotedListIsJoin(a: seq<string>)
    ensures QuotedList(a) == Join(QuoteAll(a), ", ")
  {
    if |a| == 1 {
      assert QuoteAll(a) == ["'" + a[0] + "'"];
    } else if |a| > 1 {
      var front, last := a[..|a| - 1], a[|a| - 1];
      QuotedListIsJoin(front);
      JoinSnoc(QuoteAll(front), "'" + last + "'", ", ");
      hide Join;
      assert QuoteAll(a) == QuoteAll(front) + ["'" + last + "'"];
      assert QuotedList(front) + ", '" + last + "'" == QuotedList(front) + ", " + ("'" + last + "'");
    }
  }

  /* ---- numbers ---- */

  /** A number read from the front of a string, and how many characters it took. */
  datatype Number = Number(value: int, used: nat)

  const INT_MAX := 0x7fff_ffff

  predicate IsDigit(c: char, base: nat) {
    '0' <= c && (c as int) - ('0' as int) < base && c <= '9'
  }

  predicate AllDigits(s: string, base: nat) {
    forall c :: c in s ==> IsDigit(c, base)
  }

  function DigitChar(k: nat): (c: char)
    requires k < 10
    ensures '0' <= c <= '9' && (c as int) - ('0' as int) == k
  {
    '0' + k as char
  }

  /** The digits of n, most significant first, without padding. */
  function Digits(n: nat, base: nat): string
    requires 2 <= base <= 10
  {
    if n < base then [DigitChar(n)] else Digits(n / base, base) + [DigitChar(n % base)]
  }

  function NumberOf(s: string, base: nat): nat
    requires 2 <= base <= 10 && AllDigits(s, base)
  {
    if s == "" then 0
    else
      assert s[|s| - 1] in s;
      NumberOf(s[..|s| - 1], base) * base + ((s[|s| - 1] as int) - ('0' as int))
  }

  lemma NumberOfSnoc(s: string, k: nat, base: nat)
    requires 2 <= base <= 10 && AllDigits(s, base) && k < base
    ensures AllDigits(s + [DigitChar(k)], base)
    ensures NumberOf(s + [DigitChar(k)], base) == NumberOf(s, base) * base + k
  {
    var t := s + [DigitChar(k)];
    assert t[..|t| - 1] == s;
  }

  /** Adding a digit at the end, in terms of the number before it. */
  lemma NumberOfLast(s: string, q: nat, k: nat, base: nat)
    requires 2 <= base <= 10 && AllDigits(s, base) && k < base && NumberOf(s, base) == q
    ensures AllDigits(s + [DigitChar(k)], base)
    ensures NumberOf(s + [DigitChar(k)], base) == q * base + k
  {
    NumberOfSnoc(s, k, base);
  }

  lemma Division(n: nat, base: nat)
    requires base > 0
    ensures n == (n / base) * base + n % base && n % base < base
  {
  }

  lemma DigitsStep(n: nat, base: nat)
    requires 2 <= base <= 10
    ensures Digits(n, base) == if n < base then [DigitChar(n)] else Digits(n / base, base) + [DigitChar(n % base)]
  {
  }

  lemma QuotientSmaller(n: nat, base: nat)
    requires 2 <= base <= n
    ensures 0 <= n / base < n
  {
  }

  /** Reading the digits of a number gives the number. */
  lemma {:induction false} DigitsParse(n: nat, base: nat)
    requires 2 <= base <= 10
    ensures Digits(n, base) != "" && AllDigits(Digits(n, base), base)
    ensures NumberOf(Digits(n, base), base) == n
  {
    hide Digits, NumberOf, AllDigits;
    DigitsStep(n, base);
    if n < base {
      NoDigits(base);
      NumberOfLast("", 0, n, base);
      assert "" + [DigitChar(n)] == [DigitChar(n)];
    } else {
      var q, k := n / base, n % base;
      QuotientSmaller(n, base);
      Division(n, base);
      DigitsParse(q, base);
      NumberOfLast(Digits(q, base), q, k, base);
    }
  }

  lemma NoDigits(base: nat)
    requires 2 <= base <= 10
    ensures AllDigits("", base) && NumberOf("", base) == 0
  {
  }

  function Zeros(k: nat): string {
    seq(k, _ => '0')
  }

  lemma {:induction false} LeadingZeros(k: nat, s: string, base: nat)
    requires 2 <= base <= 10 && AllDigits(s, base)
    ensures AllDigits(Zeros(k) + s, base)
    ensures NumberOf(Zeros(k) + s, base) == NumberOf(s, base)
  {
    var t := Zeros(k) + s;
    if s != "" {
      assert t[..|t| - 1] == Zeros(k) + s[..|s| - 1];
      LeadingZeros(k, s[..|s| - 1], base);
    } else if k > 0 {
      assert t[..|t| - 1] == Zeros(k - 1) + "";
      LeadingZeros(k - 1, s, base);
    }
  }

  /** The longest prefix of digits. */
  function DigitPrefix(s: string, base: nat): (p: string)
    ensures AllDigits(p, base) && p <= s
  {
    if s != "" && IsDigit(s[0], base) then [s[0]] + DigitPrefix(s[1..], base) else ""
  }

  lemma {:induction false} DigitPrefixAll(s: string, base: nat)
    requires AllDigits(s, base)
    ensures DigitPrefix(s, base) == s
  {
    if s != "" {
      assert s[0] in s;
      DigitPrefixAll(s[1..], base);
    }
  }

  predicate IsSign(sign: string) {
    sign == "" || sign == "+" || sign == "-"
  }

  /** The sign with which a text starts, if it has one. */
  function SignOf(body: string): (sign: string)
    ensures IsSign(sign) && sign <= body
  {
    if body != "" && (body[0] == '-' || body[0] == '+') then [body[0]] else ""
  }

  function Signed(n: nat, sign: string): int {
    var m: int := n;
    if sign == "-" then -m else m
  }

  /**
   * `std::stoi`: leading blanks and a sign, then as many digits as there are. Returns the number
   * and how many characters were used; fails without a digit or outside the range of int.
   */
  function StringToInt(s: string, base: nat): Option<Number>
    requires 2 <= base <= 10
  {
    TrimLeftFacts(s);
    var body := TrimLeft(s);
    var sign := SignOf(body);
    var digits := DigitPrefix(body[|sign|..], base);
    if digits == "" then None
    else
      var v := Signed(NumberOf(digits, base), sign);
      if -INT_MAX - 1 <= v <= INT_MAX then Some(Number(v, |s| - |body| + |sign| + |digits|)) else None
  }

  lemma StringToIntPlain(s: string, base: nat)
    requires 2 <= base <= 10 && s != "" && AllDigits(s, base)
    ensures StringToInt(s, base) ==
              if NumberOf(s, base) <= INT_MAX then Some(Number(NumberOf(s, base), |s|)) else None
  {
    assert s[0] in s && IsDigit(s[0], base);
    assert TrimLeft(s) == s;
    DigitPrefixAll(s, base);
  }

  lemma {:induction false} DigitPrefixStops(digits: string, rest: string, base: nat)
    requires AllDigits(digits, base) && (rest != "" ==> !IsDigit(rest[0], base))
    ensures DigitPrefix(digits + rest, base) == digits
  {
    if digits == "" {
      assert digits + rest == rest;
    } else {
      assert digits[0] in digits && (digits + rest)[1..] == digits[1..] + rest;
      DigitPrefixStops(digits[1..], rest, base);
    }
  }

  lemma SignBeforeDigits(sign: string, tail: string)
    requires IsSign(sign) && tail != "" && IsDigit(tail[0], 10)
    ensures SignOf(sign + tail) == sign && !IsSpace((sign + tail)[0]) && (sign + tail)[|sign|..] == tail
  {
    assert "" + tail == tail;
  }

  /** What `stoi` makes of blanks, a sign, some digits and whatever follows them. */
  lemma StringToIntOfText(pad: string, sign: string, digits: string, rest: string, base: nat)
    requires 2 <= base <= 10 && Blank(pad) && IsSign(sign) && digits != "" && AllDigits(digits, base)
    requires rest != "" ==> !IsDigit(rest[0], base)
    ensures var v := Signed(NumberOf(digits, base), sign);
            StringToInt(pad + (sign + (digits + rest)), base) ==
              if -0x8000_0000 <= v <= 0x7fff_ffff then Some(Number(v, |pad| + |sign| + |digits|)) else None
  {
    hide TrimLeft, NumberOf, DigitPrefix, SignOf, IsSign, IsSpace, Signed;
    var tail := digits + rest;
    var body := sign + tail;
    assert digits[0] in digits;
    SignBeforeDigits(sign, tail);
    TrimLeftPrefix(pad, [body[0]], body[1..]);
    assert [body[0]] + body[1..] == body && pad + [body[0]] + body[1..] == pad + body;
    assert TrimLeft(pad + body) == body;
    DigitPrefixStops(digits, rest, base);
  }

  /** Only such a text is read as a number. */
  lemma StringToIntReads(s: string, base: nat) returns (pad: string, sign: string, digits: string, rest: string)
    requires 2 <= base <= 10 && StringToInt(s, base).Some?
    ensures s == pad + (sign + (digits + rest))
    ensures Blank(pad) && IsSign(sign) && digits != "" && AllDigits(digits, base)
    ensures rest != "" ==> !IsDigit(rest[0], base)
  {
    hide TrimLeft, NumberOf, DigitPrefix, SignOf, IsSign, IsSpace, Signed;
    TrimLeftFacts(s);
    var body := TrimLeft(s);
    pad := s[..|s| - |body|];
    sign := SignOf(body);
    var tail := body[|sign|..];
    digits := DigitPrefix(tail, base);
    rest := tail[|digits|..];
    DigitPrefixLongest(tail, base);
    assert tail == digits + rest;
    assert body == sign + tail;
  }

  lemma {:induction false} DigitPrefixLongest(s: string, base: nat)
    ensures var p := DigitPrefix(s, base); |p| < |s| ==> !IsDigit(s[|p|], base)
  {
    if s != "" && IsDigit(s[0], base) {
      DigitPrefixLongest(s[1..], base);
    }
  }

  /** Digits have no leading zero, except for the number zero. */
  lemma {:induction false} NoLeadingZero(n: nat, base: nat)
    requires 2 <= base <= 10
    ensures Digits(n, base) != "" && (Digits(n, base)[0] == '0' ==> Digits(n, base) == "0")
  {
    if n >= base {
      var q := n / base;
      QuotientSmaller(n, base);
      QuotientPositive(n, base);
      NoLeadingZero(q, base);
      DigitsParse(q, base);
      DigitsStep(n, base);
      DigitsParse(n, base);
      hide Digits, NumberOf;
      if Digits(q, base) == "0" {
        ZeroIsZero(base);
      }
    }
  }

  lemma QuotientPositive(n: nat, base: nat)
    requires 2 <= base <= n
    ensures n / base >= 1
  {
  }

  lemma ZeroIsZero(base: nat)
    requires 2 <= base <= 10
    ensures AllDigits("0", base) && NumberOf("0", base) == 0
  {
    assert "0"[..0] == "";
  }

  lemma StringToIntOfDigits(k: nat, n: nat, base: nat)
    requires 2 <= base <= 10
    ensures StringToInt(Zeros(k) + Digits(n, base), base) ==
              if n <= INT_MAX then Some(Number(n, k + |Digits(n, base)|)) else None
  {
    DigitsParse(n, base);
    LeadingZeros(k, Digits(n, base), base);
    hide Digits, StringToInt;
    StringToIntPlain(Zeros(k) + Digits(n, base), base);
  }

  /** Two numbers with the same digits are the same number. */
  lemma DigitsInjective(m: nat, n: nat, base: nat)
    requires 2 <= base <= 10
    requires Digits(m, base) == Digits(n, base)
    ensures m == n
  {
    DigitsParse(m, base);
    DigitsParse(n, base);
  }

  /* ---- order ---- */

  /** The order of `std::string`, and so of the keys of a `std::map`. */
  predicate LexLe(a: string, b: string) {
    a == "" || (b != "" && (a[0] < b[0] || (a[0] == b[0] && LexLe(a[1..], b[1..]))))
  }

  predicate LexLt(a: string, b: string) {
    LexLe(a, b) && a != b
  }

  lemma {:induction false} LexTotal(a: string, b: string)
    ensures LexLe(a, b) || LexLe(b, a)
  {
    if a != "" && b != "" && a[0] == b[0] {
      LexTotal(a[1..], b[1..]);
    }
  }

  lemma {:induction false} LexAntisymmetric(a: string, b: string)
    requires LexLe(a, b) && LexLe(b, a)
    ensures a == b
  {
    if a != "" {
      LexAntisymmetric(a[1..], b[1..]);
      assert a == [a[0]] + a[1..] && b == [b[0]] + b[1..];
    }
  }

  lemma {:induction false} LexTransitive(a: string, b: string, c: string)
    requires LexLe(a, b) && LexLe(b, c)
    ensures LexLe(a, c)
  {
    if a != "" && a[0] == b[0] == c[0] {
      LexTransitive(a[1..], b[1..], c[1..]);
    }
  }

  predicate IsLeast(k: string, s: set<string>) {
    k in s && forall x :: x in s ==> LexLe(k, x)
  }

  lemma {:induction false} LeastExists(s: set<string>)
    requires s != {}
    ensures exists k :: IsLeast(k, s)
    decreases |s|
  {
    var x :| x in s;
    var rest := s - {x};
    if rest == {} {
      assert s == {x};
      LexTotal(x, x);
      assert IsLeast(x, s);
    } else {
      LeastExists(rest);
      var k :| IsLeast(k, rest);
      LexTotal(x, k);
      if LexLe(k, x) {
        assert IsLeast(k, s);
      } else {
        LexTotal(x, x);
        forall y | y in s ensures LexLe(x, y) {
          if y != x {
            LexTransitive(x, k, y);
          }
        }
        assert IsLeast(x, s);
      }
    }
  }

  predicate StrictlySorted(r: seq<string>) {
    forall i, j :: 0 <= i < j < |r| ==> LexLt(r[i], r[j])
  }

  /** The elements of a set in the order in which a `std::map` iterates over them. */
  ghost function Sorted(s: set<string>): (r: seq<string>)
    ensures forall k :: k in r <==> k in s
    ensures StrictlySorted(r)
    decreases |s|
  {
    if s == {} then []
    else
      LeastExists(s);
      var k :| IsLeast(k, s);
      [k] + Sorted(s - {k})
  }

  /** At position `k`, where `a` and `b` first differ, `a` has the smaller character. */
  predicate SmallerAt(a: string, b: string, k: nat) {
    k < |a| && k < |b| && a[..k] == b[..k] && a[k] < b[k]
  }

  /** `a` is a proper prefix of `b`, or has the smaller character where they first differ. */
  ghost predicate Before(a: string, b: string) {
    (|a| < |b| && a == b[..|a|]) || exists k: nat :: SmallerAt(a, b, k)
  }

  lemma SmallerLater(a: string, b: string, k: nat)
    requires a != "" && b != "" && a[0] == b[0]
    ensures SmallerAt(a, b, k + 1) <==> SmallerAt(a[1..], b[1..], k)
  {
    if k < |a| - 1 && k < |b| - 1 {
      assert a[..k + 1] == [a[0]] + a[1..][..k];
      assert b[..k + 1] == [b[0]] + b[1..][..k];
      assert a[1..][..k] == a[..k + 1][1..] && b[1..][..k] == b[..k + 1][1..];
    }
  }

  lemma BeforeTails(a: string, b: string)
    requires a != "" && b != "" && a[0] == b[0]
    ensures Before(a, b) <==> Before(a[1..], b[1..])
  {
    var a', b' := a[1..], b[1..];
    assert a == [a[0]] + a' && b == [b[0]] + b';
    if |a| < |b| {
      assert b[..|a|] == [b[0]] + b'[..|a'|];
    }
    assert !SmallerAt(a, b, 0);
    hide SmallerAt;
    if k: nat :| SmallerAt(a, b, k) {
      assert k != 0;
      SmallerLater(a, b, k - 1);
    }
    if k: nat :| SmallerAt(a', b', k) {
      SmallerLater(a, b, k);
    }
  }

  /** The order is the lexicographic one. */
  lemma {:induction false} LexIsBefore(a: string, b: string)
    ensures LexLt(a, b) <==> Before(a, b)
  {
    if a != "" && b != "" {
      if a[0] == b[0] {
        LexIsBefore(a[1..], b[1..]);
        BeforeTails(a, b);
        assert a == [a[0]] + a[1..] && b == [b[0]] + b[1..];
      } else {
        FirstDiffers(a, b);
      }
    }
  }

  lemma FirstDiffers(a: string, b: string)
    requires a != "" && b != "" && a[0] != b[0]
    ensures Before(a, b) <==> a[0] < b[0]
  {
    if a[0] < b[0] {
      assert SmallerAt(a, b, 0);
    }
    forall k: nat | 0 < k <= |a| && k <= |b| ensures a[..k] != b[..k] {
      HeadOfPrefix(a, k);
      HeadOfPrefix(b, k);
    }
    assert a[..|a|] == a;
  }

  lemma HeadOfPrefix(s: string, k: nat)
    requires 0 < k <= |s|
    ensures s[..k][0] == s[0]
  {
  }

  lemma NotBeforeItself(a: string)
    ensures !Before(a, a)
  {
    LexIsBefore(a, a);
  }

  lemma SortedIsInOrder(s: set<string>)
    ensures forall i, j :: 0 <= i < j < |Sorted(s)| ==> Before(Sorted(s)[i], Sorted(s)[j])
  {
    var keys := Sorted(s);
    hide Sorted, LexLe, Before;
    forall i, j | 0 <= i < j < |keys| ensures Before(keys[i], keys[j]) {
      LexIsBefore(keys[i], keys[j]);
    }
  }

  /** Taking the least element first is the only way to walk through a set in order. */
  lemma SortedStep(k: string, s: set<string>)
    requires IsLeast(k, s)
    ensures Sorted(s) == [k] + Sorted(s - {k})
  {
    LeastExists(s);
    var k' :| IsLeast(k', s) && Sorted(s) == [k'] + Sorted(s - {k'});
    LexAntisymmetric(k, k');
  }
}
