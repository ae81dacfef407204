/** The string operations the benches rely on: decimal rendering and `int()`, `split()`,
    `partition()`, `strip()`. */
module Text {

  datatype Option<+T> = None | Some(value: T)

  // ----- white space -----

  /** The characters Python's `str.split` and `str.strip` treat as white space. */
  predicate IsSpace(c: char) {
    var n := c as int;
    || 9 <= n <= 13 || 28 <= n <= 32 || n == 0x85 || n == 0xA0 || n == 0x1680
    || 0x2000 <= n <= 0x200A || n == 0x2028 || n == 0x2029 || n == 0x202F || n == 0x205F || n == 0x3000
  }

  predicate NoSpace(s: string) { forall c :: c in s ==> !IsSpace(c) }

  predicate AllSpace(s: string) { forall c :: c in s ==> IsSpace(c) }

  function StripLeft(s: string): string {
    if s != "" && IsSpace(s[0]) then StripLeft(s[1..]) else s
  }

  function StripRight(s: string): string {
    if s != "" && IsSpace(s[|s| - 1]) then StripRight(s[..|s| - 1]) else s
  }

  /** `s.strip()` */
  function Strip(s: string): string { StripRight(StripLeft(s)) }

  /** Neither end is white space, so stripping changes nothing. */
  predicate Trimmed(s: string) { s == "" || (!IsSpace(s[0]) && !IsSpace(s[|s| - 1])) }

  lemma {:induction false} StripLeftPadding(pad: string, s: string)
    requires AllSpace(pad)
    ensures StripLeft(pad + s) == StripLeft(s)
  {
    if pad == "" {
      assert pad + s == s;
    } else {
      assert (pad + s)[1..] == pad[1..] + s;
      StripLeftPadding(pad[1..], s);
    }
  }

  lemma {:induction false} StripRightPadding(s: string, pad: string)
    requires AllSpace(pad)
    ensures StripRight(s + pad) == StripRight(s)
  {
    if pad == "" {
      assert s + pad == s;
    } else {
      assert (s + pad)[..|s + pad| - 1] == s + pad[..|pad| - 1];
      StripRightPadding(s, pad[..|pad| - 1]);
    }
  }

  lemma StripPadded(left: string, s: string, right: string)
    requires AllSpace(left) && AllSpace(right) && Trimmed(s)
    ensures Strip(left + s + right) == s
  {
    assert left + s + right == left + (s + right);
    StripLeftPadding(left, s + right);
    if s == "" {
      assert s + right == right + "";
      StripLeftPadding(right, "");
    } else {
      StripRightPadding(s, right);
    }
  }

  // ----- split and partition -----

  function TokenLength(s: string): (n: nat)
    ensures n <= |s| && NoSpace(s[..n]) && (n < |s| ==> IsSpace(s[n]))
  {
    if s == "" || IsSpace(s[0]) then 0 else 1 + TokenLength(s[1..])
  }

  /** `s.split()` */
  function Split(s: string): seq<string>
    decreases |s|
  {
    if s == "" then []
    else if IsSpace(s[0]) then Split(s[1..])
    else [s[..TokenLength(s)]] + Split(s[TokenLength(s)..])
  }

  lemma {:induction false} TokenLengthOfToken(t: string, rest: string)
    requires NoSpace(t) && (rest == "" || IsSpace(rest[0]))
    ensures TokenLength(t + rest) == |t|
  {
    if t == "" {
      assert t + rest == rest;
    } else {
      assert (t + rest)[1..] == t[1..] + rest;
      TokenLengthOfToken(t[1..], rest);
    }
  }

  lemma SplitToken(t: string, rest: string)
    requires t != "" && NoSpace(t) && (rest == "" || IsSpace(rest[0]))
    ensures Split(t + rest) == [t] + Split(rest)
  {
    TokenLengthOfToken(t, rest);
    assert (t + rest)[..|t|] == t && (t + rest)[|t|..] == rest;
  }

  function IndexOf(s: string, c: char): (i: int)
    ensures -1 <= i < |s|
    ensures i == -1 <==> c !in s
    ensures i >= 0 ==> s[i] == c && c !in s[..i]
  {
    if s == "" then -1
    else if s[0] == c then 0
    else var j := IndexOf(s[1..], c); if j == -1 then -1 else j + 1
  }

  /** `s.partition(c)`, without the separator. */
  function Partition(s: string, c: char): (r: (string, string)) {
    var i := IndexOf(s, c);
    if i == -1 then (s, "") else (s[..i], s[i + 1..])
  }

  /** The first separator divides; later ones belong to the value. */
  lemma PartitionAtFirst(key: string, c: char, value: string)
    requires c !in key
    ensures IndexOf(key + [c] + value, c) == |key|
    ensures Partition(key + [c] + value, c) == (key, value)
  {
    var s := key + [c] + value;
    var i := IndexOf(s, c);
    assert s[|key|] == c;
    assert forall k :: 0 <= k < |key| ==> s[k] == key[k];
    assert s[|key|] in s[..|key| + 1];
    assert s[..|key|] == key && s[|key| + 1..] == value;
  }

  // ----- decimals -----

  predicate IsDigit(c: char) { '0' <= c <= '9' }

  function Digit(d: int): (c: char)
    requires 0 <= d < 10
    ensures IsDigit(c) && c as int - '0' as int == d
  {
    (48 + d) as char
  }

  /** `str(n)` for a natural number. */
  function Digits(n: nat): (s: string)
    ensures s != "" && forall i :: 0 <= i < |s| ==> IsDigit(s[i])
  {
    if n < 10 then [Digit(n)] else Digits(n / 10) + [Digit(n % 10)]
  }

  predicate DecimalText(s: string) { forall i :: 0 <= i < |s| ==> IsDigit(s[i]) || s[i] == '-' }

  /** `str(n)` */
  function Decimal(n: int): (s: string)
    ensures s != "" && DecimalText(s)
  {
    if n < 0 then "-" + Digits(-n) else Digits(n)
  }

  /** The digits of `int()`: single underscores may separate digits. */
  predicate IntBody(s: string) {
    s != "" && IsDigit(s[|s| - 1])
    && (|s| == 1 || IntBody(s[..|s| - 1]) || (s[|s| - 2] == '_' && IntBody(s[..|s| - 2])))
  }

  function IntValue(s: string): int
    requires IntBody(s)
  {
    var d := s[|s| - 1] as int - '0' as int;
    if |s| == 1 then d
    else if IntBody(s[..|s| - 1]) then 10 * IntValue(s[..|s| - 1]) + d
    else 10 * IntValue(s[..|s| - 2]) + d
  }

  /** `int(s)` for a field without surrounding white space; None is ValueError. Digits outside
      ASCII are not accepted here. */
  function ParseInt(s: string): Option<int> {
    if IntBody(s) then Some(IntValue(s))
    else if s != "" && s[0] == '-' && IntBody(s[1..]) then Some(-IntValue(s[1..]))
    else if s != "" && s[0] == '+' && IntBody(s[1..]) then Some(IntValue(s[1..]))
    else None
  }

  lemma {:induction false} ParseDigits(n: nat)
    ensures IntBody(Digits(n)) && IntValue(Digits(n)) == n
  {
    if n >= 10 {
      ParseDigits(n / 10);
      var s := Digits(n);
      assert s[..|s| - 1] == Digits(n / 10);
    }
  }

  /** `int` undoes `str`. */
  lemma {:induction false} ParseDecimal(n: int)
    ensures ParseInt(Decimal(n)) == Some(n)
  {
    if n < 0 {
      ParseDigits(-n);
      FirstIsDigit("-" + Digits(-n));
      assert ("-" + Digits(-n))[1..] == Digits(-n);
    } else {
      ParseDigits(n);
    }
  }

  lemma {:induction false} FirstIsDigit(s: string)
    ensures IntBody(s) ==> IsDigit(s[0])
    decreases |s|
  {
    if IntBody(s) && |s| > 1 {
      if IntBody(s[..|s| - 1]) {
        FirstIsDigit(s[..|s| - 1]);
      } else {
        FirstIsDigit(s[..|s| - 2]);
      }
    }
  }

  lemma DecimalInjective(a: int, b: int)
    requires Decimal(a) == Decimal(b)
    ensures a == b
  {
    ParseDecimal(a);
    ParseDecimal(b);
  }
}
