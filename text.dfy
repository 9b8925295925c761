/** String helpers shared by the model: ASCII digits, substring search,
    Go's strings.ReplaceAll with an empty replacement, strings.Trim with
    the cutset used by the page loop, and base-10 rendering of naturals. */
module Text {

  predicate IsDigit(c: char) { '0' <= c <= '9' }

  predicate IsUpper(c: char) { 'A' <= c <= 'Z' }

  predicate AllDigits(s: string) { forall k | 0 <= k < |s| :: IsDigit(s[k]) }

  function DigitValue(c: char): (d: nat)
    requires IsDigit(c)
    ensures d < 10
  {
    c as int - '0' as int
  }

  function DigitChar(d: nat): (c: char)
    requires d < 10
    ensures IsDigit(c) && DigitValue(c) == d
  {
    ('0' as int + d) as char
  }

  /** The number a string of decimal digits denotes, read most significant digit first. */
  function DigitsValue(s: string): nat
    requires AllDigits(s)
  {
    if s == [] then 0 else DigitsValue(s[..|s| - 1]) * 10 + DigitValue(s[|s| - 1])
  }

  /** Base-10 rendering of a natural number, as strconv.FormatInt(n, 10) for n >= 0. */
  function Decimal(n: nat): (r: string)
    ensures |r| >= 1 && AllDigits(r)
    ensures r[0] == '0' ==> n == 0
  {
    if n < 10 then [DigitChar(n)] else Decimal(n / 10) + [DigitChar(n % 10)]
  }

  lemma {:induction false} DecimalValue(n: nat)
    ensures DigitsValue(Decimal(n)) == n
  {
    if n >= 10 {
      DecimalValue(n / 10);
      var s := Decimal(n);
      assert s[..|s| - 1] == Decimal(n / 10);
    }
  }

  /** Two-digit rendering with a leading zero, as Go's time layouts "01", "02", "03", "04". */
  function Pad2(n: nat): (r: string)
    requires n < 100
    ensures |r| == 2 && AllDigits(r)
  {
    [DigitChar(n / 10), DigitChar(n % 10)]
  }

  /** Four-digit rendering with leading zeros, as Go's time layout "2006". */
  function Pad4(n: nat): (r: string)
    requires n < 10000
    ensures |r| == 4 && AllDigits(r)
  {
    Pad2(n / 100) + Pad2(n % 100)
  }

  lemma DigitsValue1(s: string)
    requires |s| == 1 && AllDigits(s)
    ensures DigitsValue(s) == DigitValue(s[0])
  {
    assert s[..0] == [];
  }

  lemma DigitsValue2(s: string)
    requires |s| == 2 && AllDigits(s)
    ensures DigitsValue(s) == 10 * DigitValue(s[0]) + DigitValue(s[1])
  {
    DigitsValue1(s[..1]);
  }

  /** Appending two digits multiplies the value by a hundred and adds theirs. */
  lemma DigitsValueAppend2(a: string, b: string)
    requires AllDigits(a) && |b| == 2 && AllDigits(b)
    ensures AllDigits(a + b) && DigitsValue(a + b) == 100 * DigitsValue(a) + DigitsValue(b)
  {
    var s := a + b;
    assert s[..|s| - 1] == a + b[..1];
    assert (a + b[..1])[..|a|] == a;
    DigitsValue2(b);
  }

  lemma Pad2Value(n: nat)
    requires n < 100
    ensures DigitsValue(Pad2(n)) == n
  {
    DigitsValue2(Pad2(n));
  }

  lemma Pad2OfValue(s: string)
    requires |s| == 2 && AllDigits(s)
    ensures DigitsValue(s) < 100 && Pad2(DigitsValue(s)) == s
  {
    DigitsValue2(s);
    var v := DigitsValue(s);
    assert v / 10 == DigitValue(s[0]) && v % 10 == DigitValue(s[1]);
    assert DigitChar(DigitValue(s[0])) == s[0];
    assert DigitChar(DigitValue(s[1])) == s[1];
  }

  lemma Pad4Value(n: nat)
    requires n < 10000
    ensures DigitsValue(Pad4(n)) == n
  {
    Pad2Value(n / 100);
    Pad2Value(n % 100);
    DigitsValueAppend2(Pad2(n / 100), Pad2(n % 100));
  }

  lemma Pad4OfValue(s: string)
    requires |s| == 4 && AllDigits(s)
    ensures DigitsValue(s) < 10000 && Pad4(DigitsValue(s)) == s
  {
    var hi, lo := s[..2], s[2..];
    assert s == hi + lo;
    DigitsValueAppend2(hi, lo);
    Pad2OfValue(hi);
    Pad2OfValue(lo);
    var v := DigitsValue(s);
    assert v / 100 == DigitsValue(hi) && v % 100 == DigitsValue(lo);
  }

  /** p occurs in s at index i. */
  predicate OccursAt(s: string, p: string, i: nat) { i + |p| <= |s| && s[i..i + |p|] == p }

  predicate Contains(s: string, p: string) { exists i: nat | i + |p| <= |s| :: OccursAt(s, p, i) }

  /** strings.ReplaceAll(s, p, "") for a non-empty p: the leftmost occurrence is
      deleted, the scan resumes after it, so occurrences never overlap. */
  function RemoveAll(s: string, p: string): (r: string)
    requires p != []
    ensures |r| <= |s|
    decreases |s|
  {
    if |s| < |p| then s
    else if OccursAt(s, p, 0) then RemoveAll(s[|p|..], p)
    else [s[0]] + RemoveAll(s[1..], p)
  }

  lemma OccursAtTail(s: string, p: string, i: nat)
    requires s != []
    ensures OccursAt(s[1..], p, i) <==> OccursAt(s, p, i + 1)
  {
    if i + 1 + |p| <= |s| {
      assert s[1..][i..i + |p|] == s[i + 1..i + 1 + |p|];
    }
  }

  /** Deletion leaves the first n characters alone when no occurrence of p starts among them. */
  lemma {:induction false} RemoveAllSkips(s: string, n: nat, p: string)
    requires p != [] && n <= |s|
    requires forall i: nat | i < n :: !OccursAt(s, p, i)
    ensures RemoveAll(s, p) == s[..n] + RemoveAll(s[n..], p)
    decreases n
  {
    if n == 0 {
      assert s[..0] == [] && s[0..] == s;
    } else if |s| < |p| {
      RemoveAllShort(s[n..], p);
      assert s[..n] + s[n..] == s;
    } else {
      assert !OccursAt(s, p, 0);
      var t := s[1..];
      forall i: nat | i < n - 1
        ensures !OccursAt(t, p, i)
      {
        OccursAtTail(s, p, i);
      }
      RemoveAllSkips(t, n - 1, p);
      assert t[n - 1..] == s[n..];
      assert [s[0]] + t[..n - 1] == s[..n];
    }
  }

  lemma RemoveAllShort(s: string, p: string)
    requires p != [] && |s| < |p|
    ensures RemoveAll(s, p) == s
  {
  }

  /** A string in which p does not occur is left as it is. */
  lemma RemoveAllAbsent(s: string, p: string)
    requires p != []
    requires !Contains(s, p)
    ensures RemoveAll(s, p) == s
  {
    RemoveAllSkips(s, |s|, p);
    assert s[..|s|] == s;
    assert s[|s|..] == [];
  }

  /** s with every c deleted and every other character kept, in order. */
  function Without(s: string, c: char): string
  {
    if s == [] then [] else (if s[0] == c then [] else [s[0]]) + Without(s[1..], c)
  }

  /** Deleting a one-character pattern is filtering that character out. */
  lemma {:induction false} RemoveAllChar(s: string, c: char)
    ensures RemoveAll(s, [c]) == Without(s, c)
    decreases |s|
  {
    if s != [] {
      assert OccursAt(s, [c], 0) <==> s[0] == c by {
        assert s[0..1][0] == s[0];
      }
      RemoveAllChar(s[1..], c);
    }
  }

  /** The filter leaves no c behind. */
  lemma {:induction false} WithoutLacks(s: string, c: char)
    ensures forall k | 0 <= k < |Without(s, c)| :: Without(s, c)[k] != c
    ensures !Contains(Without(s, c), [c])
    decreases |s|
  {
    var w := Without(s, c);
    if s != [] {
      WithoutLacks(s[1..], c);
      var h := if s[0] == c then [] else [s[0]];
      assert w == h + Without(s[1..], c);
      assert forall k | |h| <= k < |w| :: w[k] == Without(s[1..], c)[k - |h|];
    }
    forall i: nat | i + 1 <= |w|
      ensures !OccursAt(w, [c], i)
    {
      assert w[i..i + 1][0] == w[i];
    }
  }

  /** The filter keeps every other character as often as s has it (and in
      order, by construction). */
  lemma {:induction false} WithoutBag(s: string, c: char)
    ensures multiset(Without(s, c)) == multiset(s)[c := 0]
    decreases |s|
  {
    if s != [] {
      WithoutBag(s[1..], c);
      assert s == [s[0]] + s[1..];
      assert multiset(s) == multiset{s[0]} + multiset(s[1..]);
    }
  }

  /** strings.ReplaceAll(s, "%", ""): no '%' is left, and every other
      character stays, in order and as often as before. */
  lemma RemovePercent(s: string)
    ensures RemoveAll(s, "%") == Without(s, '%')
    ensures !Contains(RemoveAll(s, "%"), "%")
    ensures multiset(RemoveAll(s, "%")) == multiset(s)['%' := 0]
  {
    RemoveAllChar(s, '%');
    WithoutLacks(s, '%');
    WithoutBag(s, '%');
  }

  /** The cutset " \t\n" of the strings.Trim call on every reply of the page loop. */
  predicate IsBlank(c: char) { c == ' ' || c == '\t' || c == '\n' }

  predicate AllBlank(s: string) { forall k | 0 <= k < |s| :: IsBlank(s[k]) }

  function TrimLeft(s: string): string
  {
    if s != [] && IsBlank(s[0]) then TrimLeft(s[1..]) else s
  }

  function TrimRight(s: string): string
  {
    if s != [] && IsBlank(s[|s| - 1]) then TrimRight(s[..|s| - 1]) else s
  }

  /** strings.Trim(s, " \t\n"): never longer than s, and a non-empty result
      neither starts nor ends with a blank (TrimShape gives the full picture). */
  function Trim(s: string): (r: string)
    ensures |r| <= |s|
    ensures r != [] ==> !IsBlank(r[0]) && !IsBlank(r[|r| - 1])
  {
    TrimLeftShape(s);
    TrimRightShape(TrimLeft(s));
    var t := TrimRight(TrimLeft(s));
    assert t != [] ==> t[0] == TrimLeft(s)[0];
    t
  }

  lemma {:induction false} TrimLeftShape(s: string)
    ensures var r := TrimLeft(s);
      && |r| <= |s| && r == s[|s| - |r|..]
      && AllBlank(s[..|s| - |r|])
      && (r != [] ==> !IsBlank(r[0]))
  {
    if s != [] && IsBlank(s[0]) {
      TrimLeftShape(s[1..]);
      var r := TrimLeft(s);
      assert s[1..][..|s| - 1 - |r|] == s[1..|s| - |r|];
    }
  }

  lemma {:induction false} TrimRightShape(s: string)
    ensures var r := TrimRight(s);
      && |r| <= |s| && r == s[..|r|]
      && AllBlank(s[|r|..])
      && (r != [] ==> !IsBlank(r[|r| - 1]))
  {
    if s != [] && IsBlank(s[|s| - 1]) {
      TrimRightShape(s[..|s| - 1]);
      var r := TrimRight(s);
      assert s[..|s| - 1][|r|..] + [s[|s| - 1]] == s[|r|..];
    }
  }

  /** strings.Trim keeps an infix of s that neither starts nor ends with a
      blank, and everything it removes on either side is blank. */
  lemma TrimShape(s: string)
    ensures var r := Trim(s);
      exists i, j | 0 <= i <= j <= |s| ::
        && r == s[i..j]
        && AllBlank(s[..i]) && AllBlank(s[j..])
        && (r != [] ==> !IsBlank(r[0]) && !IsBlank(r[|r| - 1]))
  {
    TrimLeftShape(s);
    var t := TrimLeft(s);
    TrimRightShape(t);
    var r := TrimRight(t);
    var i := |s| - |t|;
    var j := i + |r|;
    assert r == s[i..j];
    assert s[j..] == t[|r|..];
  }

  lemma {:induction false} TrimLeftPadded(a: string, t: string)
    requires AllBlank(a)
    requires t == [] || !IsBlank(t[0])
    ensures TrimLeft(a + t) == t
  {
    if a != [] {
      assert (a + t)[1..] == a[1..] + t;
      TrimLeftPadded(a[1..], t);
    }
  }

  lemma {:induction false} TrimRightPadded(t: string, b: string)
    requires AllBlank(b)
    requires t == [] || !IsBlank(t[|t| - 1])
    ensures TrimRight(t + b) == t
  {
    if b != [] {
      assert (t + b)[..|t + b| - 1] == t + b[..|b| - 1];
      TrimRightPadded(t, b[..|b| - 1]);
    }
  }

  /** Blank padding on either side of a text that starts and ends with a non-blank
      character is removed, and nothing else is. */
  lemma TrimPadded(a: string, m: string, b: string)
    requires AllBlank(a) && AllBlank(b)
    requires m != [] && !IsBlank(m[0]) && !IsBlank(m[|m| - 1])
    ensures Trim(a + m + b) == m
  {
    assert a + m + b == a + (m + b);
    TrimLeftPadded(a, m + b);
    TrimRightPadded(m, b);
  }

  /** Go's cutspace: drops leading ' ' characters (tabs are not spaces here). */
  function SkipSpaces(s: string): (r: string)
    ensures |r| <= |s| && r == s[|s| - |r|..]
    ensures r != [] ==> r[0] != ' '
    ensures forall k | 0 <= k < |s| - |r| :: s[k] == ' '
  {
    if s != [] && s[0] == ' ' then
      var r := SkipSpaces(s[1..]);
      assert forall k | 1 <= k < |s| - |r| :: s[k] == s[1..][k - 1];
      r
    else s
  }
}
