/**
 * The C text primitives the core relies on: `strncmp` against a literal,
 * decimal formatting as `sprintf("%hu")` does it, and the decimal scanning
 * that `sscanf("%hu")` performs on a NUL-terminated payload.
 *
 * A byte string is a `string`; the byte past its end reads as NUL, as the
 * MQTT handler terminates every payload at `data_len` and every C literal
 * ends in NUL.
 */
module CText {
  import opened Wrappers

  function CharAt(s: string, i: nat): char {
    if i < |s| then s[i] else '\0'
  }

  predicate NulFree(s: string) {
    forall j :: 0 <= j < |s| ==> s[j] != '\0'
  }

  predicate NulFreeOn(s: string, i: nat, n: nat) {
    forall j :: i <= j < n ==> CharAt(s, j) != '\0'
  }

  predicate EqualOn(a: string, b: string, i: nat, n: nat) {
    forall j :: i <= j < n ==> CharAt(a, j) == CharAt(b, j)
  }

  /** `strncmp(a + i, b + i, n - i) == 0`: compare until a difference, a
      shared NUL or position `n`. */
  function StrnEqualFrom(a: string, b: string, i: nat, n: nat): bool
    decreases n - i
  {
    if n <= i then true
    else if CharAt(a, i) != CharAt(b, i) then false
    else if CharAt(a, i) == '\0' then true
    else StrnEqualFrom(a, b, i + 1, n)
  }

  /** The two strings agree at every position of `i..n` that `a` reaches
      without passing a NUL. */
  predicate AgreeUntilNul(a: string, b: string, i: nat, n: nat) {
    forall j :: i <= j < n && NulFreeOn(a, i, j) ==> CharAt(a, j) == CharAt(b, j)
  }

  lemma {:induction false} StrnEqualFromMeaning(a: string, b: string, i: nat, n: nat)
    ensures StrnEqualFrom(a, b, i, n) <==> AgreeUntilNul(a, b, i, n)
    decreases n - i
  {
    if i < n && CharAt(a, i) == CharAt(b, i) {
      if CharAt(a, i) == '\0' {
        forall j | i < j < n
          ensures !NulFreeOn(a, i, j)
        {
          assert CharAt(a, i) == '\0';
        }
      } else {
        StrnEqualFromMeaning(a, b, i + 1, n);
        forall j | i + 1 <= j < n
          ensures NulFreeOn(a, i, j) <==> NulFreeOn(a, i + 1, j)
        {
        }
      }
    }
  }

  /** `strncmp(a, b, n) == 0`: the strings agree on the first `n`
      positions up to and including the first NUL of `a`. */
  function StrnEqual(a: string, b: string, n: nat): (r: bool)
    ensures r <==> AgreeUntilNul(a, b, 0, n)
  {
    StrnEqualFromMeaning(a, b, 0, n);
    StrnEqualFrom(a, b, 0, n)
  }

  /** Over a stretch where one side has no NUL, `strncmp` compares every
      character of the stretch and then goes on. */
  lemma {:induction false} StrnSkip(a: string, b: string, i: nat, m: nat, n: nat)
    requires i <= m <= n
    requires NulFreeOn(a, i, m) || NulFreeOn(b, i, m)
    ensures StrnEqualFrom(a, b, i, n) <==> EqualOn(a, b, i, m) && StrnEqualFrom(a, b, m, n)
    decreases m - i
  {
    if i < m && CharAt(a, i) == CharAt(b, i) {
      StrnSkip(a, b, i + 1, m, n);
      assert EqualOn(a, b, i, m) <==> EqualOn(a, b, i + 1, m);
    }
  }

  /** `data` (of length `data_len`, NUL-terminated) is accepted by
      `strncmp(data, lit, data_len) == 0`: it is a prefix of the literal (the
      empty payload included), or the literal followed by a NUL. */
  predicate CMatch(data: string, lit: string) {
    || data <= lit
    || (|lit| < |data| && data[..|lit|] == lit && data[|lit|] == '\0')
  }

  lemma StrnEqualLiteral(data: string, lit: string)
    requires NulFree(lit)
    ensures StrnEqual(data, lit, |data|) <==> CMatch(data, lit)
  {
    if |data| <= |lit| {
      StrnSkip(data, lit, 0, |data|, |data|);
      assert EqualOn(data, lit, 0, |data|) <==> data <= lit by {
        if EqualOn(data, lit, 0, |data|) {
          assert forall j :: 0 <= j < |data| ==> CharAt(data, j) == data[j] && CharAt(lit, j) == lit[j];
          assert data == lit[..|data|];
        }
      }
    } else {
      StrnSkip(data, lit, 0, |lit|, |data|);
      assert EqualOn(data, lit, 0, |lit|) <==> data[..|lit|] == lit by {
        assert forall j :: 0 <= j < |lit| ==> CharAt(data, j) == data[j] && CharAt(lit, j) == lit[j];
      }
    }
  }

  /** `strncmp(data, lit, |lit|) == 0` for a literal without NUL: the
      payload starts with the literal. */
  lemma StrnEqualPrefix(data: string, lit: string)
    requires NulFree(lit)
    ensures StrnEqual(data, lit, |lit|) <==> |lit| <= |data| && data[..|lit|] == lit
  {
    StrnSkip(data, lit, 0, |lit|, |lit|);
    if |data| < |lit| {
      assert CharAt(data, |data|) != CharAt(lit, |data|);
    } else {
      assert forall j :: 0 <= j < |lit| ==> CharAt(data, j) == data[j] && CharAt(lit, j) == lit[j];
    }
  }

  /** `strncmp(a, b, min(|a|, |b|)) == 0` for NUL-free `a`: one of the two is
      a prefix of the other. */
  lemma StrnEqualShorter(a: string, b: string)
    requires NulFree(a)
    ensures StrnEqual(a, b, if |a| < |b| then |a| else |b|) <==> a <= b || b <= a
  {
    var m := if |a| < |b| then |a| else |b|;
    StrnSkip(a, b, 0, m, m);
    assert EqualOn(a, b, 0, m) <==> a[..m] == b[..m] by {
      assert forall j :: 0 <= j < m ==> CharAt(a, j) == a[j] && CharAt(b, j) == b[j];
    }
  }

  // ---------------------------------------------------------------------
  // Decimal digits

  predicate IsDigit(c: char) {
    '0' <= c <= '9'
  }

  predicate AllDigits(s: string) {
    forall j :: 0 <= j < |s| ==> IsDigit(s[j])
  }

  function DigitValue(c: char): (d: nat)
    requires IsDigit(c)
    ensures d < 10
  {
    c as int - '0' as int
  }

  function DigitChar(d: nat): (c: char)
    requires d < 10
    ensures IsDigit(c) && DigitValue(c) == d
  {
    ('0' as int + d) as char
  }

  /** The value of a string of decimal digits, most significant first. */
  function ValueOf(ds: string): nat
    requires AllDigits(ds)
  {
    if ds == [] then 0 else 10 * ValueOf(ds[..|ds| - 1]) + DigitValue(ds[|ds| - 1])
  }

  /** `sprintf("%hu")` / `sprintf("%hhu")`: the shortest decimal form. */
  function Decimal(n: nat): (s: string)
    ensures 1 <= |s| && AllDigits(s)
    ensures |s| > 1 ==> s[0] != '0'
    decreases n
  {
    if n < 10 then [DigitChar(n)] else Decimal(n / 10) + [DigitChar(n % 10)]
  }

  lemma {:induction false} ValueOfDecimal(n: nat)
    ensures ValueOf(Decimal(n)) == n
    decreases n
  {
    if n >= 10 {
      var s := Decimal(n);
      assert s[..|s| - 1] == Decimal(n / 10);
      ValueOfDecimal(n / 10);
    }
  }

  /** The length of the run of digits at the front of `s`. */
  function DigitRun(s: string): (k: nat)
    ensures k <= |s| && AllDigits(s[..k])
    ensures k < |s| ==> !IsDigit(s[k])
  {
    if s != [] && IsDigit(s[0]) then
      var k := 1 + DigitRun(s[1..]);
      assert s[..k] == [s[0]] + s[1..][..k - 1];
      k
    else 0
  }

  /** The front digit run is the maximal one: a digit string followed by
      the end or by a non-digit. */
  lemma {:induction false} DigitRunExact(ds: string, tail: string)
    requires AllDigits(ds)
    requires tail == [] || !IsDigit(tail[0])
    ensures DigitRun(ds + tail) == |ds|
    decreases |ds|
  {
    if ds != [] {
      assert (ds + tail)[1..] == ds[1..] + tail;
      DigitRunExact(ds[1..], tail);
    } else {
      assert ds + tail == tail;
    }
  }

  /** One unsigned conversion: its value and the text after its digits. */
  datatype Scan = Scan(value: nat, rest: string)

  /** `%hu` (limit 65535) or `%hhu` (limit 255) at the front of `s`: at
      least one digit, read greedily; a value over the limit counts as a
      failed conversion. */
  function ScanUnsigned(s: string, limit: nat): (r: Option<Scan>)
    ensures r.Some? <==> s != [] && IsDigit(s[0]) && ValueOf(s[..DigitRun(s)]) <= limit
    ensures r.Some? ==> var k := |s| - |r.value.rest|;
      && 0 < k == DigitRun(s)
      && AllDigits(s[..k])
      && s == s[..k] + r.value.rest
      && r.value.value == ValueOf(s[..k]) <= limit
      && (r.value.rest == [] || !IsDigit(r.value.rest[0]))
  {
    var k := DigitRun(s);
    if k == 0 then None
    else
      var v := ValueOf(s[..k]);
      if v <= limit then
        assert s == s[..k] + s[k..];
        Some(Scan(v, s[k..]))
      else None
  }

  /** Scanning a formatted number gives the number back and stops right
      after it. */
  lemma ScanDecimal(n: nat, tail: string, limit: nat)
    requires tail == [] || !IsDigit(tail[0])
    requires n <= limit
    ensures ScanUnsigned(Decimal(n) + tail, limit) == Some(Scan(n, tail))
  {
    var s := Decimal(n) + tail;
    DigitRunExact(Decimal(n), tail);
    assert s[..|Decimal(n)|] == Decimal(n);
    assert s[|Decimal(n)|..] == tail;
    ValueOfDecimal(n);
  }

  /** The text after a leading literal, as a format's literal part consumes it. */
  function After(s: string, lit: string): (r: Option<string>)
    ensures r.Some? <==> lit <= s
    ensures r.Some? ==> s == lit + r.value
  {
    if lit <= s then
      assert s == s[..|lit|] + s[|lit|..];
      Some(s[|lit|..])
    else None
  }

  lemma AfterConcat(lit: string, s: string)
    ensures After(lit + s, lit) == Some(s)
  {
    assert lit <= lit + s;
    assert (lit + s)[|lit|..] == s;
  }
}
