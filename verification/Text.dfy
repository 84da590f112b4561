/** Strings as the source uses them: the byte-wise order of Go strings, which is also
    the order of keys in the store, and decimal renderings of unsigned words. */
module Text {
  import opened Words

  // ----- order -----

  predicate LexLess(a: string, b: string) {
    if b == "" then false
    else if a == "" then true
    else a[0] < b[0] || (a[0] == b[0] && LexLess(a[1..], b[1..]))
  }

  lemma {:induction false} LexTotal(a: string, b: string)
    ensures a == b || LexLess(a, b) || LexLess(b, a)
  {
    if a != "" && b != "" && a[0] == b[0] {
      LexTotal(a[1..], b[1..]);
      assert a == [a[0]] + a[1..] && b == [b[0]] + b[1..];
    }
  }

  lemma {:induction false} LexAsymmetric(a: string, b: string)
    requires LexLess(a, b)
    ensures !LexLess(b, a) && a != b
  {
    if a != "" && b != "" && a[0] == b[0] {
      LexAsymmetric(a[1..], b[1..]);
    }
  }

  lemma {:induction false} LexTransitive(a: string, b: string, c: string)
    requires LexLess(a, b) && LexLess(b, c)
    ensures LexLess(a, c)
  {
    if a != "" && a[0] == b[0] == c[0] {
      LexTransitive(a[1..], b[1..], c[1..]);
    }
  }

  lemma {:induction false} LexCommonPrefix(p: string, a: string, b: string)
    ensures LexLess(p + a, p + b) <==> LexLess(a, b)
  {
    if p == "" {
      assert p + a == a && p + b == b;
    } else {
      assert (p + a)[1..] == p[1..] + a && (p + b)[1..] == p[1..] + b;
      LexCommonPrefix(p[1..], a, b);
    }
  }

  /** Two different heads of the same width decide the order, whatever follows them. */
  lemma {:induction false} LexHeadDecides(a: string, x: string, b: string, y: string)
    requires |a| == |b| && a != b
    ensures LexLess(a + x, b + y) <==> LexLess(a, b)
  {
    assert (a + x)[0] == a[0] && (b + y)[0] == b[0];
    if a[0] == b[0] {
      assert a == [a[0]] + a[1..] && b == [b[0]] + b[1..];
      assert (a + x)[1..] == a[1..] + x && (b + y)[1..] == b[1..] + y;
      LexHeadDecides(a[1..], x, b[1..], y);
    }
  }

  // ----- decimals -----

  function Pow10(n: nat): (p: nat)
    ensures p > 0
  {
    if n == 0 then 1 else 10 * Pow10(n - 1)
  }

  function Digit(d: int): (c: char)
    requires 0 <= d < 10
    ensures IsDigit(c) && DigitValue(c) == d
  {
    ['0', '1', '2', '3', '4', '5', '6', '7', '8', '9'][d]
  }

  predicate IsDigit(c: char) { '0' <= c <= '9' }

  function DigitValue(c: char): (d: int)
    requires IsDigit(c)
    ensures 0 <= d < 10
  {
    c as int - '0' as int
  }

  predicate AllDigits(s: string) { forall i :: 0 <= i < |s| ==> IsDigit(s[i]) }

  function Value(s: string): nat
    requires AllDigits(s)
  {
    if s == "" then 0 else Value(s[..|s| - 1]) * 10 + DigitValue(s[|s| - 1])
  }

  /** The zero-padded rendering of n in `width` digits (%0<width>d). */
  function Padded(n: nat, width: nat): (s: string)
    ensures |s| == width && AllDigits(s)
  {
    if width == 0 then "" else Padded(n / 10, width - 1) + [Digit(n % 10)]
  }

  /** The unpadded rendering (%d). */
  function Decimal(n: nat): (s: string)
    ensures s != "" && AllDigits(s)
  {
    if n < 10 then [Digit(n)] else Decimal(n / 10) + [Digit(n % 10)]
  }

  /** strconv.ParseUint(s, 10, 64). */
  function ParseUint64(s: string): Option<uint64> {
    if s == "" || !AllDigits(s) || Value(s) > MAX_UINT64 then None else Some(Value(s))
  }

  lemma ValueOfAppended(s: string, d: int)
    requires AllDigits(s) && 0 <= d < 10
    ensures AllDigits(s + [Digit(d)]) && Value(s + [Digit(d)]) == Value(s) * 10 + d
  {
    assert (s + [Digit(d)])[..|s|] == s;
  }

  lemma TenthFits(n: nat, p: nat)
    requires n < 10 * p
    ensures n / 10 < p && n == n / 10 * 10 + n % 10
  {
  }

  lemma {:induction false} PaddedValue(n: nat, width: nat)
    requires n < Pow10(width)
    ensures Value(Padded(n, width)) == n
  {
    if width > 0 {
      TenthFits(n, Pow10(width - 1));
      PaddedValue(n / 10, width - 1);
      ValueOfAppended(Padded(n / 10, width - 1), n % 10);
    }
  }

  lemma {:induction false} DecimalValue(n: nat)
    ensures Value(Decimal(n)) == n
  {
    if n < 10 {
      ValueOfAppended("", n);
      assert "" + [Digit(n)] == Decimal(n);
    } else {
      DecimalValue(n / 10);
      ValueOfAppended(Decimal(n / 10), n % 10);
    }
  }

  lemma DecimalInjective(a: nat, b: nat)
    requires Decimal(a) == Decimal(b)
    ensures a == b
  {
    DecimalValue(a);
    DecimalValue(b);
  }

  lemma {:induction false} LexLastDecides(a: string, x: char, b: string, y: char)
    requires |a| == |b|
    ensures LexLess(a + [x], b + [y]) <==> LexLess(a, b) || (a == b && x < y)
  {
    if a == "" {
      assert a + [x] == [x] && b + [y] == [y];
      assert [x][1..] == "" && [y][1..] == "";
    } else {
      assert (a + [x])[1..] == a[1..] + [x] && (b + [y])[1..] == b[1..] + [y];
      assert a == [a[0]] + a[1..] && b == [b[0]] + b[1..];
      LexLastDecides(a[1..], x, b[1..], y);
    }
  }

  /** Zero padding makes the key order the numeric order. */
  lemma DigitOrder(a: int, b: int)
    requires 0 <= a < 10 && 0 <= b < 10
    ensures Digit(a) < Digit(b) <==> a < b
  {
    assert DigitValue(Digit(a)) == a && DigitValue(Digit(b)) == b;
  }

  lemma {:induction false} PaddedOrder(a: nat, b: nat, width: nat)
    requires a < Pow10(width) && b < Pow10(width)
    ensures LexLess(Padded(a, width), Padded(b, width)) <==> a < b
  {
    if width > 0 {
      var a', b' := Padded(a / 10, width - 1), Padded(b / 10, width - 1);
      PaddedOrder(a / 10, b / 10, width - 1);
      LexLastDecides(a', Digit(a % 10), b', Digit(b % 10));
      DigitOrder(a % 10, b % 10);
      PaddedValue(a / 10, width - 1);
      PaddedValue(b / 10, width - 1);
      assert a' == b' <==> a / 10 == b / 10;
    }
  }

  lemma Pow10Of20()
    ensures Pow10(20) == 100_000_000_000_000_000_000
  {
    assert Pow10(5) == 100_000;
    assert Pow10(10) == 10_000_000_000;
    assert Pow10(15) == 1_000_000_000_000_000;
  }

  // ----- cutting -----

  /** The part of s before its first c, as strings.Cut finds it. */
  function Before(s: string, c: char): Option<string> {
    if s == "" then None
    else if s[0] == c then Some("")
    else match Before(s[1..], c)
         case None => None
         case Some(rest) => Some([s[0]] + rest)
  }

  lemma {:induction false} BeforeJoined(head: string, c: char, tail: string)
    requires c !in head
    ensures Before(head + [c] + tail, c) == Some(head)
  {
    if head == "" {
      assert head + [c] + tail == [c] + tail;
    } else {
      assert (head + [c] + tail)[1..] == head[1..] + [c] + tail;
      BeforeJoined(head[1..], c, tail);
      assert head == [head[0]] + head[1..];
    }
  }

  /** A separator that occurs in neither head makes the joined text split one way only. */
  lemma JoinInjective(a: string, x: string, b: string, y: string, c: char)
    requires c !in a && c !in b && a + [c] + x == b + [c] + y
    ensures a == b && x == y
  {
    BeforeJoined(a, c, x);
    BeforeJoined(b, c, y);
    assert x == (a + [c] + x)[|a| + 1..] && y == (b + [c] + y)[|b| + 1..];
  }

  /** The part of s after its last c. */
  function AfterLast(s: string, c: char): string {
    if s == "" || s[|s| - 1] == c then "" else AfterLast(s[..|s| - 1], c) + [s[|s| - 1]]
  }

  lemma {:induction false} AfterLastJoined(head: string, c: char, tail: string)
    requires c !in tail
    ensures AfterLast(head + [c] + tail, c) == tail
  {
    var s := head + [c] + tail;
    if tail == "" {
      assert s[|s| - 1] == c;
    } else {
      assert s[..|s| - 1] == head + [c] + tail[..|tail| - 1];
      AfterLastJoined(head, c, tail[..|tail| - 1]);
      assert tail == tail[..|tail| - 1] + [tail[|tail| - 1]];
    }
  }

  /** So does one that occurs in neither tail. */
  lemma JoinInjectiveFromTheEnd(a: string, x: string, b: string, y: string, c: char)
    requires c !in x && c !in y && a + [c] + x == b + [c] + y
    ensures a == b && x == y
  {
    AfterLastJoined(a, c, x);
    AfterLastJoined(b, c, y);
    assert a == (a + [c] + x)[..|a|] && b == (b + [c] + y)[..|b|];
  }

  // ----- lists -----

  /** The list without the first occurrence of a string. */
  function WithoutFirst(list: seq<string>, x: string): seq<string> {
    if list == [] then [] else if list[0] == x then list[1..] else [list[0]] + WithoutFirst(list[1..], x)
  }

  lemma {:induction false} WithoutFirstSkips(list: seq<string>, x: string, i: nat)
    requires i <= |list| && forall k :: 0 <= k < i ==> list[k] != x
    ensures WithoutFirst(list, x) == list[..i] + WithoutFirst(list[i..], x)
  {
    if i == 0 {
      assert list[0..] == list;
    } else {
      WithoutFirstSkips(list[1..], x, i - 1);
      assert list[1..][i - 1..] == list[i..];
    }
  }
}
