/** Printing and reading decimal numbers. */
module Numbers {
  import opened Sequences

  const TMP_SIZE: nat := 21
  const LONG_MIN: int := -0x8000_0000_0000_0000
  const INT_LIMIT: int := 0x8000_0000
  const ULONG_LIMIT: int := 0x1_0000_0000_0000_0000

  // ---------------------------------------------------------------- decimal text

  predicate IsDigit(c: char) {
    '0' <= c <= '9'
  }

  function DigitChar(d: nat): (c: char)
    requires d < 10
    ensures IsDigit(c) && DigitOf(c) == d && c == "0123456789"[d]
  {
    ('0' as int + d) as char
  }

  function DigitOf(c: char): nat
    requires IsDigit(c)
  {
    c as int - '0' as int
  }

  /** The decimal digits of a number. */
  function Digits(x: nat): (s: string)
    ensures |s| > 0 && forall c <- s :: IsDigit(c)
  {
    if x < 10 then [DigitChar(x)] else Digits(x / 10) + [DigitChar(x % 10)]
  }

  predicate IsNumeral(t: string) {
    forall c <- t :: IsDigit(c) || c == '.'
  }

  /** The number a text of digits and dots stands for; dots are skipped. */
  function ValueOf(s: string): nat
    requires IsNumeral(s)
  {
    if s == [] then 0
    else if s[|s| - 1] == '.' then ValueOf(s[..|s| - 1])
    else 10 * ValueOf(s[..|s| - 1]) + DigitOf(s[|s| - 1])
  }

  lemma {:induction false} DigitsHaveValue(x: nat)
    ensures ValueOf(Digits(x)) == x
  {
    if x >= 10 {
      DigitsHaveValue(x / 10);
      assert Digits(x)[..|Digits(x)| - 1] == Digits(x / 10);
    }
  }

  lemma {:induction false} NoLeadingZero(x: nat)
    ensures x > 0 ==> Digits(x)[0] != '0'
    ensures x == 0 ==> Digits(x) == "0"
  {
    if x >= 10 {
      NoLeadingZero(x / 10);
    }
  }

  /** The digits are the only text of digits without a leading zero that has the value. */
  lemma {:induction false} DigitsAreUnique(s: string)
    requires s != [] && (forall c <- s :: IsDigit(c)) && (s[0] == '0' ==> |s| == 1)
    ensures s == Digits(ValueOf(s))
    decreases |s|
  {
    var front, last := s[..|s| - 1], s[|s| - 1];
    assert last in s;
    if front != [] {
      DigitsAreUnique(front);
      PositiveValue(front);
      assert s == front + [last];
      assert ValueOf(s) / 10 == ValueOf(front) && ValueOf(s) % 10 == DigitOf(last);
      CharOfDigit(last);
    } else {
      CharOfDigit(last);
    }
  }

  lemma CharOfDigit(c: char)
    requires IsDigit(c)
    ensures DigitChar(DigitOf(c)) == c
  {
  }

  lemma {:induction false} PositiveValue(s: string)
    requires s != [] && (forall c <- s :: IsDigit(c)) && s[0] != '0'
    ensures ValueOf(s) > 0
    decreases |s|
  {
    assert s[0] in s;
    if |s| == 1 {
      assert ValueOf(s[..0]) == 0;
    } else {
      assert s[..|s| - 1][0] == s[0];
      PositiveValue(s[..|s| - 1]);
    }
  }

  function Power(k: nat): (p: nat)
    ensures p > 0
  {
    if k == 0 then 1 else 10 * Power(k - 1)
  }

  /** How many digits a number has. */
  lemma {:induction false} DigitCount(x: nat, k: nat)
    requires k > 0
    ensures |Digits(x)| <= k <==> x < Power(k)
    decreases k
  {
    if k == 1 {
      assert Power(1) == 10;
    } else if x >= 10 {
      DigitCount(x / 10, k - 1);
    } else {
      PowerGrows(k);
    }
  }

  lemma {:induction false} PowerGrows(k: nat)
    requires k > 0
    ensures Power(k) >= 10
  {
    if k > 1 {
      PowerGrows(k - 1);
    }
  }

  function Abs(x: int): nat {
    if x < 0 then -x else x
  }

  /** A minus sign if there has to be one, and the digits. */
  function Text(x: int): string {
    if x < 0 then "-" + Digits(-x) else Digits(x)
  }

  // ---------------------------------------------------------------- printing

  /** The end of both printers: the characters of tmp are written backwards, and a NUL after them. */
  method WriteReversed(tmp: array<char>, buffer: array<char>, i: nat)
    requires i < tmp.Length && i + 1 < buffer.Length && tmp != buffer
    modifies buffer
    ensures buffer[..i + 1] == Reversed(tmp[..i + 1]) && buffer[i + 1] == '\0'
    ensures forall k | i + 1 < k < buffer.Length :: buffer[k] == old(buffer[k])
  {
    var j := 0;
    while j <= i
      invariant j <= i + 1
      invariant forall k | 0 <= k < j :: buffer[k] == tmp[i - k]
      invariant forall k | j <= k < buffer.Length :: buffer[k] == old(buffer[k])
    {
      buffer[j] := tmp[i - j];
      j := j + 1;
    }
    buffer[i + 1] := '\0';
    ghost var out, back := buffer[..i + 1], Reversed(tmp[..i + 1]);
    forall k | 0 <= k <= i
      ensures out[k] == back[k]
    {
      ReversedAt(tmp[..i + 1], k);
    }
    assert out == back;
  }

  /** The last digits of x are in t, the last one first, and rest is what comes before them. */
  ghost predicate Emitted(x: nat, rest: nat, t: string) {
    if t == "" then rest == x else rest > 0 && Digits(x) == Digits(rest) + Reversed(t)
  }

  lemma EmitStart(x: nat)
    ensures Emitted(x, x, "")
  {
  }

  lemma EmitStep(x: nat, rest: nat, t: string)
    requires Emitted(x, rest, t)
    ensures var more := t + [DigitChar(rest % 10)];
      if rest / 10 == 0 then Reversed(more) == Digits(x) else Emitted(x, rest / 10, more)
  {
    ReversedLast(t, DigitChar(rest % 10));
  }

  lemma EmittedIsShort(x: nat, rest: nat, t: string)
    requires Emitted(x, rest, t)
    ensures |Digits(x)| > |t|
  {
  }

  /** ltos, for a buffer of at least two characters and a number that can be negated. */
  method Ltos(num: int, buffer: array<char>, n: nat) returns (r: int)
    requires LONG_MIN < num < -LONG_MIN && 2 <= n <= buffer.Length
    modifies buffer
    ensures var room := (if n > 21 then 21 else n) - 2;
      r == if |Digits(if num < 0 then -num else num)| <= room then |Text(num)| else -1
    ensures r >= 0 ==> r < n && buffer[..r] == Text(num) && buffer[r] == '\0'
    ensures r >= 0 ==> forall k | r < k < buffer.Length :: buffer[k] == old(buffer[k])
    ensures r < 0 ==> buffer[..] == old(buffer[..])[(if n > 21 then 21 else n) - 1 := '\0']
  {
    hide Emitted, Digits, Reversed;
    var tmp := new char[TMP_SIZE];
    var n := if n > TMP_SIZE then TMP_SIZE else n;
    var rest := Abs(num);
    EmitStart(rest);
    var i := 0;
    assert tmp[..0] == "";
    while i < n - 2
      invariant i <= n - 2 && fresh(tmp) && buffer[..] == old(buffer[..])
      invariant Emitted(Abs(num), rest, tmp[..i])
    {
      EmitStep(Abs(num), rest, tmp[..i]);
      ghost var t := tmp[..i];
      var digit := rest % 10;
      rest := (rest - digit) / 10;
      tmp[i] := DigitChar(digit);
      assert tmp[..i + 1] == t + [DigitChar(digit)];
      if rest == 0 {
        t := tmp[..i + 1];
        ReversedLast(t, '-');
        if num < 0 {
          i := i + 1;
          tmp[i] := '-';
          assert tmp[..i + 1] == t + ['-'];
        }
        WriteReversed(tmp, buffer, i);
        return i + 1;
      }
      i := i + 1;
    }
    EmittedIsShort(Abs(num), rest, tmp[..i]);
    buffer[n - 1] := '\0';
    return -1;
  }

  /** ultos, for a buffer of at least one character; with room for 20 digits it prints every 64-bit number. */
  method Ultos(num: nat, buffer: array<char>, n: nat) returns (r: int)
    requires num < ULONG_LIMIT && 1 <= n <= buffer.Length
    modifies buffer
    ensures var room := (if n > 21 then 21 else n) - 1;
      r == if |Digits(num)| <= room then |Digits(num)| else -1
    ensures r >= 0 ==> r < n && buffer[..r] == Digits(num) && buffer[r] == '\0'
    ensures r >= 0 ==> forall k | r < k < buffer.Length :: buffer[k] == old(buffer[k])
    ensures r < 0 ==> buffer[..] == old(buffer[..])[(if n > 21 then 21 else n) - 1 := '\0']
    ensures n >= TMP_SIZE ==> r > 0
  {
    hide Emitted, Digits, Reversed;
    var tmp := new char[TMP_SIZE];
    var n := if n > TMP_SIZE then TMP_SIZE else n;
    var rest := num;
    ULongDigits(num);
    EmitStart(num);
    var i := 0;
    assert tmp[..0] == "";
    while i < n - 1
      invariant i <= n - 1 && fresh(tmp) && buffer[..] == old(buffer[..])
      invariant Emitted(num, rest, tmp[..i])
    {
      EmitStep(num, rest, tmp[..i]);
      ghost var t := tmp[..i];
      var digit := rest % 10;
      rest := (rest - digit) / 10;
      tmp[i] := DigitChar(digit);
      assert tmp[..i + 1] == t + [DigitChar(digit)];
      if rest == 0 {
        WriteReversed(tmp, buffer, i);
        return i + 1;
      }
      i := i + 1;
    }
    EmittedIsShort(num, rest, tmp[..i]);
    buffer[n - 1] := '\0';
    return -1;
  }

  /** Twenty digits hold every 64-bit number. */
  lemma ULongDigits(x: nat)
    requires x < ULONG_LIMIT
    ensures |Digits(x)| <= 20
  {
    assert Power(5) == 100_000;
    assert Power(10) == 100_000 * 100_000;
    assert Power(15) == 100_000 * Power(10);
    assert Power(20) == 100_000 * Power(15);
    DigitCount(x, 20);
  }

  /** itos */
  method Itos(num: int, buffer: array<char>, n: nat) returns (r: int)
    requires -INT_LIMIT <= num < INT_LIMIT && 2 <= n <= buffer.Length
    modifies buffer
    ensures var room := (if n > 21 then 21 else n) - 2;
      r == if |Digits(if num < 0 then -num else num)| <= room then |Text(num)| else -1
    ensures r >= 0 ==> r < n && buffer[..r] == Text(num) && buffer[r] == '\0'
    ensures r >= 0 ==> forall k | r < k < buffer.Length :: buffer[k] == old(buffer[k])
    ensures r < 0 ==> buffer[..] == old(buffer[..])[(if n > 21 then 21 else n) - 1 := '\0']
  {
    r := Ltos(num, buffer, n);
  }

  // ---------------------------------------------------------------- reading

  predicate IsSign(c: char) {
    c == '+' || c == '-'
  }

  /** The part behind the last sign. */
  function Tail(s: string): (t: string)
    ensures |t| <= |s| && t == s[|s| - |t|..]
    ensures |t| < |s| ==> IsSign(s[|s| - |t| - 1])
    ensures forall c <- t :: !IsSign(c)
  {
    if s == [] || IsSign(s[|s| - 1]) then [] else Tail(s[..|s| - 1]) + [s[|s| - 1]]
  }

  function CountDigits(t: string): nat {
    if t == [] then 0 else CountDigits(t[1..]) + if IsDigit(t[0]) then 1 else 0
  }

  lemma NumeralParts(c: char, t: string)
    requires IsNumeral([c] + t)
    ensures IsNumeral(t) && (IsDigit(c) || c == '.')
  {
    assert ([c] + t)[0] == c;
    assert forall x <- t :: x in [c] + t;
  }

  lemma ValueLast(t: string, c: char)
    requires IsNumeral(t + [c])
    ensures IsNumeral(t) && (IsDigit(c) || c == '.')
    ensures ValueOf(t + [c]) == if IsDigit(c) then 10 * ValueOf(t) + DigitOf(c) else ValueOf(t)
  {
    assert (t + [c])[..|t|] == t && (t + [c])[|t|] == c;
    assert forall x <- t :: x in t + [c];
    assert c in t + [c];
  }

  /** What a digit adds at a power of ten. */
  function Weighted(d: nat, base: nat): nat {
    d * base
  }

  /** A digit in front counts with the power of ten of the digits behind it. */
  lemma {:induction false} ValueFront(c: char, t: string)
    requires IsNumeral([c] + t)
    ensures IsNumeral(t) && (IsDigit(c) || c == '.')
    ensures ValueOf([c] + t) == ValueOf(t) + if IsDigit(c) then Weighted(DigitOf(c), Power(CountDigits(t))) else 0
    ensures CountDigits([c] + t) == CountDigits(t) + if IsDigit(c) then 1 else 0
    decreases |t|
  {
    hide IsNumeral, ValueOf, CountDigits, Power;
    NumeralParts(c, t);
    CountFront(c, t);
    if t == [] {
      assert [c] + t == [c];
      SingleValue(c);
    } else {
      var front, last := t[..|t| - 1], t[|t| - 1];
      assert t == front + [last] && [c] + t == ([c] + front) + [last];
      ValueLast(front, last);
      ValueLast([c] + front, last);
      ValueFront(c, front);
      CountLast(front, last);
      PowerNext(CountDigits(front));
      if IsDigit(c) {
        TimesTen(DigitOf(c), Power(CountDigits(front)));
      }
    }
  }

  lemma CountFront(c: char, t: string)
    ensures CountDigits([c] + t) == CountDigits(t) + if IsDigit(c) then 1 else 0
  {
    assert ([c] + t)[0] == c && ([c] + t)[1..] == t;
  }

  lemma SingleValue(c: char)
    requires IsNumeral([c])
    ensures ValueOf([c]) == (if IsDigit(c) then DigitOf(c) else 0) && Power(CountDigits([])) == 1 && ValueOf([]) == 0
  {
    assert [c][..0] == [];
  }

  lemma PowerNext(k: nat)
    ensures Power(k + 1) == 10 * Power(k)
  {
  }

  lemma TimesTen(d: nat, p: nat)
    ensures 10 * (d * p) == d * (10 * p)
  {
  }

  lemma {:induction false} CountLast(t: string, c: char)
    ensures CountDigits(t + [c]) == CountDigits(t) + if IsDigit(c) then 1 else 0
  {
    if t == [] {
      assert t + [c] == [c] && CountDigits([c]) == CountDigits([]) + if IsDigit(c) then 1 else 0;
    } else {
      assert (t + [c])[1..] == t[1..] + [c];
      CountLast(t[1..], c);
    }
  }

  lemma {:induction false} ValueBound(t: string)
    requires IsNumeral(t)
    ensures ValueOf(t) < Power(CountDigits(t))
    decreases |t|
  {
    if t != [] {
      var front, last := t[..|t| - 1], t[|t| - 1];
      assert last in t && t == front + [last];
      ValueBound(front);
      CountLast(front, last);
    }
  }

  lemma {:induction false} CountSuffix(s: string, j: nat)
    requires j <= |s|
    ensures CountDigits(s[j..]) <= CountDigits(s)
    decreases j
  {
    if j == 0 {
      assert s[0..] == s;
    } else {
      CountSuffix(s[1..], j - 1);
      assert s[1..][j - 1..] == s[j..];
    }
  }

  lemma {:induction false} PowerMonotone(j: nat, k: nat)
    requires j <= k
    ensures Power(j) <= Power(k)
    decreases k - j
  {
    if j < k {
      PowerMonotone(j, k - 1);
    }
  }

  /** Nine digits fit an int, with the power of ten that follows them. */
  lemma NineDigits(t: string)
    requires IsNumeral(t) && CountDigits(t) <= 9
    ensures ValueOf(t) < INT_LIMIT && Power(CountDigits(t)) < INT_LIMIT
  {
    ValueBound(t);
    PowerMonotone(CountDigits(t), 9);
    assert Power(5) == 100_000;
  }

  /** The next character to the left belongs to the tail, or is the sign before it. */
  lemma NextOfTail(s: string, n: nat)
    requires n <= |Tail(s)| && n < |s|
    ensures IsSign(s[|s| - n - 1]) <==> n == |Tail(s)|
    ensures n < |Tail(s)| ==> s[|s| - n - 1] in Tail(s)
  {
    hide Tail;
    var t := Tail(s);
    if n < |t| {
      assert s[|s| - n - 1] == t[|t| - n - 1];
    }
  }

  function Signed(minus: bool, value: int): int {
    if minus then -value else value
  }

  /** atoi, where its int arithmetic does not overflow and its last loop ends. */
  method Atoi(s: string) returns (err: int, result: int)
    requires TailDigits(s) <= 9
    requires |Tail(s)| + 2 <= |s| ==> s[|s| - |Tail(s)| - 2] != ' '
    ensures err == if IsNumeral(Tail(s)) && |s| <= |Tail(s)| + 1 then 0 else 1
    ensures err == 0 ==> result == Signed(|s| > |Tail(s)| && s[0] == '-', ValueOf(Tail(s)))
  {
    hide Tail, ValueOf, CountDigits, Reading, DigitOf, IsNumeral, Weighted, TailDigits;
    ReadNothing(s);
    var length := |s|;
    var res: int := 0;
    var i := 0;
    var base: nat := 1;
    var signReached := false;
    while i < length && !signReached
      invariant i <= length
      invariant !signReached ==> Reading(s, i, res, base)
      invariant signReached ==>
        i == |Tail(s)| + 1 && IsNumeral(Tail(s)) && res == Signed(s[length - i] == '-', ValueOf(Tail(s)))
    {
      var c := s[(length - 1) - i];
      if IsDigit(c) {
        ReadDigit(s, i, res, base);
        res := res + Weighted(DigitOf(c), base);
        base := base * 10;
      } else if c == '.' {
        ReadDot(s, i, res, base);
      } else if c == '-' {
        ReadSign(s, i, res, base);
        signReached := true;
        res := -res;
      } else if c == '+' {
        ReadSign(s, i, res, base);
        signReached := true;
      } else {
        ReadOther(s, i, res, base);
        return 1, 0;
      }
      i := i + 1;
    }
    if i < length {
      return 1, 0;
    }
    if !signReached {
      ReadEnd(s, res, base);
    }
    return 0, res;
  }

  /** The last i characters. */
  function Last(s: string, i: nat): (u: string)
    requires i <= |s|
    ensures |u| == i
  {
    s[|s| - i..]
  }

  lemma LastMore(s: string, i: nat)
    requires i < |s|
    ensures Last(s, i + 1) == [s[|s| - 1 - i]] + Last(s, i)
  {
  }

  lemma LastIsAll(s: string)
    ensures Last(s, |s|) == s && Last(s, 0) == ""
  {
  }

  ghost function TailLength(s: string): (n: nat)
    ensures n <= |s|
  {
    |Tail(s)|
  }

  ghost function TailDigits(s: string): nat {
    CountDigits(Tail(s))
  }

  lemma LastOfTail(s: string, i: nat)
    requires i <= TailLength(s)
    ensures CountDigits(Last(s, i)) <= TailDigits(s) && (i == TailLength(s) ==> Last(s, i) == Tail(s))
  {
    hide CountDigits, Tail;
    SuffixOfTail(s, i);
  }

  /** The next character is a sign exactly when the tail has been read. */
  lemma SignAtTail(s: string, i: nat)
    requires i <= TailLength(s) && i < |s|
    ensures IsSign(s[|s| - 1 - i]) <==> i == TailLength(s)
  {
    NextOfTail(s, i);
  }

  /** The last i characters have been read: their value, and the power of ten for the next digit; both fit an int. */
  ghost predicate Reading(s: string, i: nat, res: int, base: nat) {
    && i <= TailLength(s) && IsNumeral(Last(s, i))
    && res == ValueOf(Last(s, i)) && base == Power(CountDigits(Last(s, i)))
    && res < INT_LIMIT && base < INT_LIMIT
  }

  lemma ReadNothing(s: string)
    ensures Reading(s, 0, 0, 1)
  {
    LastIsAll(s);
  }

  lemma NumeralMore(c: char, u: string)
    requires IsNumeral(u) && (IsDigit(c) || c == '.')
    ensures IsNumeral([c] + u)
  {
  }

  lemma DigitStep(c: char, u: string, w: string, base: nat)
    requires w == [c] + u && IsNumeral(u) && IsDigit(c) && CountDigits(w) <= 9 && base == Power(CountDigits(u))
    ensures IsNumeral(w) && ValueOf(u) + Weighted(DigitOf(c), base) == ValueOf(w) < INT_LIMIT
    ensures base * 10 == Power(CountDigits(w)) && base * 10 < INT_LIMIT
  {
    hide CountDigits, ValueOf, Power, IsNumeral, DigitOf, Weighted;
    NumeralMore(c, u);
    ValueFront(c, u);
    NineDigits(w);
    PowerNext(CountDigits(u));
  }

  lemma ReadDigit(s: string, i: nat, res: int, base: nat)
    requires Reading(s, i, res, base) && i < |s| && IsDigit(s[|s| - 1 - i]) && TailDigits(s) <= 9
    ensures Reading(s, i + 1, res + Weighted(DigitOf(s[|s| - 1 - i]), base), base * 10)
  {
    hide TailLength, TailDigits, CountDigits, ValueOf, Power, IsNumeral, DigitOf, Last, Weighted;
    SignAtTail(s, i);
    LastMore(s, i);
    LastOfTail(s, i + 1);
    DigitStep(s[|s| - 1 - i], Last(s, i), Last(s, i + 1), base);
  }

  lemma ReadDot(s: string, i: nat, res: int, base: nat)
    requires Reading(s, i, res, base) && i < |s| && s[|s| - 1 - i] == '.'
    ensures Reading(s, i + 1, res, base)
  {
    hide TailLength, CountDigits, ValueOf, Power, IsNumeral, Last;
    SignAtTail(s, i);
    LastMore(s, i);
    NumeralMore('.', Last(s, i));
    ValueFront('.', Last(s, i));
  }

  lemma ReadSign(s: string, i: nat, res: int, base: nat)
    requires Reading(s, i, res, base) && i < |s| && IsSign(s[|s| - 1 - i])
    ensures i == |Tail(s)| && IsNumeral(Tail(s)) && res == ValueOf(Tail(s))
  {
    hide Tail, CountDigits, ValueOf, Power, Last, IsNumeral;
    SignAtTail(s, i);
    LastOfTail(s, i);
  }

  lemma ReadOther(s: string, i: nat, res: int, base: nat)
    requires Reading(s, i, res, base) && i < |s|
    requires !IsSign(s[|s| - 1 - i]) && !IsDigit(s[|s| - 1 - i]) && s[|s| - 1 - i] != '.'
    ensures !IsNumeral(Tail(s))
  {
    hide Tail, CountDigits, ValueOf, Power, Last;
    NextOfTail(s, i);
  }

  lemma ReadEnd(s: string, res: int, base: nat)
    requires Reading(s, |s|, res, base)
    ensures Tail(s) == s && IsNumeral(Tail(s)) && res == ValueOf(Tail(s))
  {
    hide Tail, CountDigits, ValueOf, Power, Last, IsNumeral;
    LastIsAll(s);
    LastOfTail(s, |s|);
  }

  lemma SuffixOfTail(s: string, n: nat)
    requires n <= |Tail(s)|
    ensures CountDigits(s[|s| - n..]) <= CountDigits(Tail(s))
  {
    hide Tail, CountDigits;
    SuffixOfSuffix(s, Tail(s), n);
    CountSuffix(Tail(s), |Tail(s)| - n);
  }

  lemma SuffixOfSuffix(s: string, t: string, n: nat)
    requires n <= |t| <= |s| && t == s[|s| - |t|..]
    ensures s[|s| - n..] == t[|t| - n..]
  {
  }

  /** The text of a number is read back. */
  lemma TextIsNumeral(x: int)
    ensures Tail(Text(x)) == Digits(Abs(x)) && IsNumeral(Digits(Abs(x))) && ValueOf(Digits(Abs(x))) == Abs(x)
    ensures |Text(x)| == |Digits(Abs(x))| + if x < 0 then 1 else 0
  {
    DigitsHaveValue(Abs(x));
    var d, s := Digits(Abs(x)), Text(x);
    if x < 0 {
      TailOf("-", d);
    } else {
      TailOf("", d);
      assert "" + d == d;
    }
  }

  lemma {:induction false} TailOf(front: string, t: string)
    requires front == "" || front == "-"
    requires forall c <- t :: !IsSign(c)
    ensures Tail(front + t) == t
    decreases |t|
  {
    if t == [] {
      assert front + t == front;
    } else {
      assert (front + t)[..|front + t| - 1] == front + t[..|t| - 1];
      assert t[|t| - 1] in t;
      TailOf(front, t[..|t| - 1]);
    }
  }

  lemma {:induction false} AllDigits(t: string)
    requires forall c <- t :: IsDigit(c)
    ensures CountDigits(t) == |t|
  {
    if t != [] {
      assert t[0] in t;
      AllDigits(t[1..]);
    }
  }

  /** itos and then atoi: every number of up to nine digits comes back. */
  method ItosThenAtoi(x: int, buffer: array<char>) returns (err: int, y: int)
    requires -1_000_000_000 < x < 1_000_000_000 && buffer.Length >= 11
    modifies buffer
    ensures err == 0 && y == x
  {
    NineDigitNumber(x);
    TextIsNumeral(x);
    AllDigits(Digits(Abs(x)));
    var n := Itos(x, buffer, buffer.Length);
    err, y := Atoi(buffer[..n]);
  }

  lemma NineDigitNumber(x: int)
    requires -1_000_000_000 < x < 1_000_000_000
    ensures |Digits(Abs(x))| <= 9
  {
    assert Power(5) == 100_000;
    DigitCount(Abs(x), 9);
  }
}
