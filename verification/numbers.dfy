/**
 * Number parsing and formatting of the calendar widget (app.js, "Utilities").
 *
 * Experience values are arbitrary-precision integers (JavaScript BigInt) that are
 * never negative where they are produced, so they are modelled as `nat`.
 */
module Numbers {
  import opened Wrappers

  predicate IsDigit(c: char) {
    '0' <= c <= '9'
  }

  predicate AllDigits(s: string) {
    forall i | 0 <= i < |s| :: IsDigit(s[i])
  }

  function DigitValue(c: char): (d: nat)
    requires IsDigit(c)
    ensures d < 10
  {
    (c as int) - ('0' as int)
  }

  function DigitChar(d: nat): (c: char)
    requires d < 10
    ensures IsDigit(c) && DigitValue(c) == d
  {
    (('0' as int) + d) as char
  }

  /** The decimal digits of `s`, in order: what `replace(/[^0-9]/g, '')` leaves. */
  function Digits(s: string): (t: string)
    ensures AllDigits(t)
    ensures t == [] <==> forall i | 0 <= i < |s| :: !IsDigit(s[i])
  {
    if s == [] then []
    else (if IsDigit(s[0]) then [s[0]] else []) + Digits(s[1..])
  }

  /** The value of a string of decimal digits (leading zeros allowed), as `BigInt(t)` reads it. */
  function DigitsValue(t: string): nat
    requires AllDigits(t)
  {
    if t == [] then 0
    else DigitsValue(t[..|t| - 1]) * 10 + DigitValue(t[|t| - 1])
  }

  /**
   * parseNum: drops every character that is not a decimal digit and reads what
   * is left as an integer; `null` when nothing is left. (`BigInt` cannot throw on
   * a non-empty digit string, so its `catch` branch is unreachable.)
   */
  function ParseNum(s: string): (r: Option<nat>)
    ensures r.None? <==> forall i | 0 <= i < |s| :: !IsDigit(s[i])
  {
    var t := Digits(s);
    if t == [] then None else Some(DigitsValue(t))
  }

  /** `n.toString()` for a non-negative BigInt: canonical decimal, no leading zero. */
  function DecimalString(n: nat): (s: string)
    ensures AllDigits(s) && |s| >= 1
    ensures s[0] == '0' ==> s == "0"
    ensures DigitsValue(s) == n
  {
    if n < 10 then [DigitChar(n)]
    else
      var p := DecimalString(n / 10);
      var s := p + [DigitChar(n % 10)];
      assert s[..|s| - 1] == p;
      s
  }

  /**
   * Thousands grouping, `s.replace(/\B(?=(\d{3})+(?!\d))/g, ',')` on a string of
   * digits: a comma goes before every position that is not the first and is
   * followed by a multiple of three digits up to the end.
   */
  function Group(s: string): (r: string)
    decreases |s|
  {
    if |s| <= 3 then s
    else Group(s[..|s| - 3]) + [','] + s[|s| - 3..]
  }

  /** fmt: the empty string for `null`, otherwise the grouped decimal form. */
  function Fmt(n: Option<nat>): (r: string)
    ensures r == [] <==> n.None?
    ensures n.Some? ==> Digits(r) == DecimalString(n.value)
    ensures n.Some? ==> forall i | 0 <= i < |r| :: r[i] == ',' || IsDigit(r[i])
    ensures n.Some? ==> |r| == |DecimalString(n.value)| + (|DecimalString(n.value)| - 1) / 3
    ensures n.Some? ==> forall i | 0 <= i < |r| :: r[i] == ',' <==> (|r| - i) % 4 == 0
  {
    match n
    case None => ""
    case Some(v) =>
      var s := DecimalString(v);
      GroupLength(s);
      GroupDigits(s);
      GroupCommas(s);
      GroupAlphabet(s);
      Group(s)
  }

  /** clamp(v, a, b) = Math.max(a, Math.min(b, v)). */
  function Clamp(v: int, lo: int, hi: int): (r: int)
    ensures lo <= hi ==> lo <= r <= hi
    ensures lo <= hi ==> (r == v <==> lo <= v <= hi)
    ensures lo <= hi && v < lo ==> r == lo
    ensures lo <= hi && hi < v ==> r == hi
    ensures hi < lo ==> r == lo
  {
    var m := if hi < v then hi else v;
    if lo < m then m else lo
  }

  lemma {:induction false} DigitsAppend(a: string, b: string)
    ensures Digits(a + b) == Digits(a) + Digits(b)
  {
    if a == [] {
      assert a + b == b;
    } else {
      var ab := a + b;
      assert ab[0] == a[0] && ab[1..] == a[1..] + b;
      DigitsAppend(a[1..], b);
      assert Digits(ab) == (if IsDigit(a[0]) then [a[0]] else []) + Digits(a[1..] + b);
    }
  }

  /** Removing non-digits from a digit string changes nothing. */
  lemma {:induction false} DigitsOfDigitString(s: string)
    requires AllDigits(s)
    ensures Digits(s) == s
  {
    if s != [] {
      DigitsOfDigitString(s[1..]);
    }
  }

  /** The length of a grouped digit string: one comma per full group of three after the first. */
  lemma {:induction false} GroupLength(s: string)
    requires |s| > 0
    ensures |Group(s)| == |s| + (|s| - 1) / 3
    decreases |s|
  {
    if |s| > 3 {
      GroupLength(s[..|s| - 3]);
    }
  }

  /**
   * Where the commas of a grouped digit string are: exactly at the positions
   * whose distance from the end is a multiple of four.
   */
  lemma {:induction false} GroupCommas(s: string)
    requires AllDigits(s)
    ensures forall i | 0 <= i < |Group(s)| :: Group(s)[i] == ',' <==> (|Group(s)| - i) % 4 == 0
    decreases |s|
  {
    var r := Group(s);
    if |s| <= 3 {
      forall i | 0 <= i < |r| ensures r[i] == ',' <==> (|r| - i) % 4 == 0 {
        assert IsDigit(s[i]);
      }
    } else {
      var p := s[..|s| - 3];
      var q := Group(p);
      GroupCommas(p);
      assert r == q + [','] + s[|s| - 3..];
      forall i | 0 <= i < |r| ensures r[i] == ',' <==> (|r| - i) % 4 == 0 {
        if i < |q| {
          assert r[i] == q[i];
          assert |r| - i == (|q| - i) + 4;
        } else if i == |q| {
          assert |r| - i == 4;
        } else {
          assert r[i] == s[|s| - 3 + (i - |q| - 1)];
          assert IsDigit(r[i]);
          assert 1 <= |r| - i <= 3;
        }
      }
    }
  }

  /** A grouped digit string holds nothing but digits and commas. */
  lemma {:induction false} GroupAlphabet(s: string)
    requires AllDigits(s)
    ensures forall i | 0 <= i < |Group(s)| :: Group(s)[i] == ',' || IsDigit(Group(s)[i])
    decreases |s|
  {
    if |s| > 3 {
      var p := s[..|s| - 3];
      GroupAlphabet(p);
      var r := Group(s);
      assert r == Group(p) + [','] + s[|s| - 3..];
      forall i | 0 <= i < |r| ensures r[i] == ',' || IsDigit(r[i]) {
        if i > |Group(p)| {
          assert r[i] == s[|s| - 3 + (i - |Group(p)| - 1)];
        }
      }
    }
  }

  /** Grouping only inserts commas: deleting the non-digits gives the digits back. */
  lemma {:induction false} GroupDigits(s: string)
    requires AllDigits(s)
    ensures Digits(Group(s)) == s
    decreases |s|
  {
    if |s| <= 3 {
      DigitsOfDigitString(s);
    } else {
      var p := s[..|s| - 3];
      var tail := s[|s| - 3..];
      GroupDigits(p);
      DigitsAppend(Group(p) + [','], tail);
      DigitsAppend(Group(p), [',']);
      DigitsOfDigitString(tail);
      assert Digits([',']) == [];
      assert p + tail == s;
    }
  }

  /** The canonical decimal string of `n` reads back as `n`. */
  lemma DecimalRoundTrip(n: nat)
    ensures ParseNum(DecimalString(n)) == Some(n)
  {
    DigitsOfDigitString(DecimalString(n));
  }

  /** parseNum(fmt(n)) == n, for `null` and for every non-negative value. */
  lemma FmtRoundTrip(n: Option<nat>)
    ensures ParseNum(Fmt(n)) == n
  {
    if n.Some? {
      var d := DecimalString(n.value);
      GroupDigits(d);
    }
  }
}
