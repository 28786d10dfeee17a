/**
 * Queries over the entry history of the calendar widget (app.js, "Calendar
 * helpers" and `sumMonthDeltas`). Entries map `YYYY-MM-DD` keys to the stored
 * cumulative exp as a decimal string; any other key may also be present (the
 * map comes from local storage) and is ignored by every query.
 *
 * Keys are compared as JavaScript compares strings: character by character, a
 * proper prefix first. On date-shaped keys that order is the chronological one
 * (KeyOrderIsChronological).
 */
module History {
  import opened Wrappers
  import opened Numbers

  type Entries = map<string, string>

  // ----- date-shaped keys -----

  /** `/^\d{4}-\d{2}-\d{2}$/`. */
  predicate IsDateKey(k: string) {
    && |k| == 10
    && IsDigit(k[0]) && IsDigit(k[1]) && IsDigit(k[2]) && IsDigit(k[3])
    && k[4] == '-'
    && IsDigit(k[5]) && IsDigit(k[6])
    && k[7] == '-'
    && IsDigit(k[8]) && IsDigit(k[9])
  }

  function Year(k: string): nat
    requires IsDateKey(k)
  {
    DigitsValue(k[..4])
  }

  /** The month as written, 1-based (`Number(m[2])`). */
  function Month(k: string): nat
    requires IsDateKey(k)
  {
    DigitsValue(k[5..7])
  }

  function Day(k: string): nat
    requires IsDateKey(k)
  {
    DigitsValue(k[8..])
  }

  /** A date key of the given year and 0-based month (`y === year && mo === month`). */
  predicate InMonth(k: string, year: int, month: int) {
    IsDateKey(k) && Year(k) == year && Month(k) - 1 == month
  }

  /** `String(n).padStart(2, '0')`. */
  function Pad2(n: nat): (s: string)
    ensures n < 100 ==> |s| == 2 && AllDigits(s) && DigitsValue(s) == n
  {
    var d := DecimalString(n);
    if |d| < 2 then
      var s := "0" + d;
      assert n < 10;
      assert s[..1] == "0";
      s
    else
      assert n >= 10 ==> |DecimalString(n / 10)| >= 1;
      d
  }

  /** ymd: the key of a day, from its local year, 0-based month and day of the month. */
  function Ymd(year: nat, month: nat, day: nat): string {
    DecimalString(year) + "-" + Pad2(month + 1) + "-" + Pad2(day)
  }

  /** The key of a day of a four-digit year is a date key that reads back as that day and lies in its month. */
  lemma YmdIsDateKey(year: nat, month: nat, day: nat)
    requires 1000 <= year <= 9999 && month < 12 && 1 <= day <= 31
    ensures IsDateKey(Ymd(year, month, day))
    ensures Year(Ymd(year, month, day)) == year
    ensures Month(Ymd(year, month, day)) == month + 1
    ensures Day(Ymd(year, month, day)) == day
    ensures InMonth(Ymd(year, month, day), year, month)
  {
    var y := DecimalString(year);
    var y1 := year / 10;
    var y2 := y1 / 10;
    assert 1 <= y2 / 10 < 10 && 10 <= y2 < 100 && 100 <= y1 < 1000;
    assert |DecimalString(y2 / 10)| == 1;
    assert |DecimalString(y2)| == 2;
    assert |DecimalString(y1)| == 3;
    assert |y| == 4;
    var k := Ymd(year, month, day);
    assert k[..4] == y && k[5..7] == Pad2(month + 1) && k[8..] == Pad2(day);
  }

  // ----- string order -----

  /** JavaScript's `a < b` on strings. */
  predicate LexLess(a: string, b: string) {
    if a == [] then b != []
    else if b == [] then false
    else if a[0] != b[0] then a[0] < b[0]
    else LexLess(a[1..], b[1..])
  }

  /**
   * LexLess is the order of section 7.2.13 of ECMA-262 (IsLessThan on strings):
   * a proper prefix comes first, otherwise the first differing code unit decides.
   */
  lemma {:induction false} LexLessIsStringOrder(a: string, b: string)
    ensures LexLess(a, b) <==>
      || (|a| < |b| && a == b[..|a|])
      || exists k | 0 <= k < |a| && k < |b| :: a[..k] == b[..k] && a[k] < b[k]
  {
    if a != [] && b != [] {
      if a[0] != b[0] {
        if a[0] < b[0] {
          assert a[..0] == b[..0];
        }
      } else {
        var a', b' := a[1..], b[1..];
        LexLessIsStringOrder(a', b');
        if |a'| < |b'| && a' == b'[..|a'|] {
          assert a == [a[0]] + a' && b[..|a|] == [b[0]] + b'[..|a'|];
        }
        if |a| < |b| && a == b[..|a|] {
          assert a' == b'[..|a'|];
        }
        forall k | 0 <= k < |a'| && k < |b'| && a'[..k] == b'[..k] && a'[k] < b'[k]
          ensures a[..k + 1] == b[..k + 1] && a[k + 1] < b[k + 1]
        {
          assert a[..k + 1] == [a[0]] + a'[..k] && b[..k + 1] == [b[0]] + b'[..k];
        }
        forall k | 0 <= k < |a| && k < |b| && a[..k] == b[..k] && a[k] < b[k]
          ensures 0 < k && a'[..k - 1] == b'[..k - 1] && a'[k - 1] < b'[k - 1]
        {
          assert a'[..k - 1] == a[1..k] && b'[..k - 1] == b[1..k];
        }
      }
    }
  }

  lemma LexIrreflexive(a: string)
    ensures !LexLess(a, a)
  {
  }

  lemma {:induction false} LexAsymmetric(a: string, b: string)
    requires LexLess(a, b)
    ensures !LexLess(b, a)
  {
    if a != [] && b != [] && a[0] == b[0] {
      LexAsymmetric(a[1..], b[1..]);
    }
  }

  lemma LexAsymmetricAll()
    ensures forall a, b | LexLess(a, b) :: !LexLess(b, a)
  {
    forall a, b | LexLess(a, b) ensures !LexLess(b, a) {
      LexAsymmetric(a, b);
    }
  }

  lemma {:induction false} LexTransitive(a: string, b: string, c: string)
    requires LexLess(a, b) && LexLess(b, c)
    ensures LexLess(a, c)
  {
    if a != [] && b != [] && c != [] && a[0] == b[0] && b[0] == c[0] {
      LexTransitive(a[1..], b[1..], c[1..]);
    }
  }

  lemma {:induction false} LexTotal(a: string, b: string)
    requires a != b
    ensures LexLess(a, b) || LexLess(b, a)
  {
    if a != [] && b != [] && a[0] == b[0] {
      assert a == [a[0]] + a[1..] && b == [b[0]] + b[1..];
      LexTotal(a[1..], b[1..]);
    }
  }

  /** Two strings that agree on a prefix of equal length compare as the rest does. */
  lemma {:induction false} LexAppend(a1: string, a2: string, b1: string, b2: string)
    requires |a1| == |b1|
    ensures LexLess(a1 + a2, b1 + b2) == if a1 == b1 then LexLess(a2, b2) else LexLess(a1, b1)
  {
    if a1 == [] {
      assert a1 + a2 == a2 && b1 + b2 == b2;
    } else {
      assert (a1 + a2)[1..] == a1[1..] + a2;
      assert (b1 + b2)[1..] == b1[1..] + b2;
      LexAppend(a1[1..], a2, b1[1..], b2);
      if a1[0] == b1[0] && a1 != b1 {
        assert a1 == [a1[0]] + a1[1..] && b1 == [b1[0]] + b1[1..];
      }
    }
  }

  /** On digit strings of the same width, string order is numeric order. */
  lemma {:induction false} FixedWidthOrder(a: string, b: string)
    requires AllDigits(a) && AllDigits(b) && |a| == |b|
    ensures LexLess(a, b) <==> DigitsValue(a) < DigitsValue(b)
    ensures a == b <==> DigitsValue(a) == DigitsValue(b)
    decreases |a|
  {
    if a != [] {
      var n := |a| - 1;
      assert a == a[..n] + [a[n]] && b == b[..n] + [b[n]];
      FixedWidthOrder(a[..n], b[..n]);
      LexAppend(a[..n], [a[n]], b[..n], [b[n]]);
      if a[..n] != b[..n] {
        LexTotal(a[..n], b[..n]);
      }
    }
  }

  /** On `YYYY-MM-DD` keys, string order is the order of (year, month, day). */
  lemma KeyOrderIsChronological(a: string, b: string)
    requires IsDateKey(a) && IsDateKey(b)
    ensures LexLess(a, b) <==>
      || Year(a) < Year(b)
      || (Year(a) == Year(b) && Month(a) < Month(b))
      || (Year(a) == Year(b) && Month(a) == Month(b) && Day(a) < Day(b))
  {
    assert a == a[..4] + ([a[4]] + (a[5..7] + ([a[7]] + a[8..])));
    assert b == b[..4] + ([b[4]] + (b[5..7] + ([b[7]] + b[8..])));
    FixedWidthOrder(a[..4], b[..4]);
    FixedWidthOrder(a[5..7], b[5..7]);
    FixedWidthOrder(a[8..], b[8..]);
    LexAppend(a[..4], [a[4]] + (a[5..7] + ([a[7]] + a[8..])), b[..4], [b[4]] + (b[5..7] + ([b[7]] + b[8..])));
    LexAppend([a[4]], a[5..7] + ([a[7]] + a[8..]), [b[4]], b[5..7] + ([b[7]] + b[8..]));
    LexAppend(a[5..7], [a[7]] + a[8..], b[5..7], [b[7]] + b[8..]);
    LexAppend([a[7]], a[8..], [b[7]], b[8..]);
  }

  // ----- sorted keys -----

  predicate StrictlySorted(ks: seq<string>) {
    forall i, j | 0 <= i < j < |ks| :: LexLess(ks[i], ks[j])
  }

  /** The least key of a set, when one exists. */
  predicate IsMinKey(m: string, s: set<string>) {
    m in s && forall k | k in s && k != m :: LexLess(m, k)
  }

  lemma {:induction false} MinKeyExists(s: set<string>)
    requires s != {}
    ensures exists m :: IsMinKey(m, s)
    decreases |s|
  {
    var x :| x in s;
    if s == {x} {
      assert IsMinKey(x, s);
    } else {
      var rest := s - {x};
      MinKeyExists(rest);
      var m :| IsMinKey(m, rest);
      if LexLess(x, m) {
        forall k | k in s && k != x ensures LexLess(x, k) {
          if k != m {
            LexTransitive(x, m, k);
          }
        }
        assert IsMinKey(x, s);
      } else {
        LexTotal(x, m);
        assert IsMinKey(m, s);
      }
    }
  }

  /** The least key of a non-empty set. */
  function MinKey(s: set<string>): (m: string)
    requires s != {}
    ensures m in s && forall k | k in s && k != m :: LexLess(m, k)
  {
    MinKeyExists(s);
    LexAsymmetricAll();
    var m :| IsMinKey(m, s);
    m
  }

  /** `.sort()` of a set of keys: repeatedly the least remaining key. */
  function SortedKeys(s: set<string>): (ks: seq<string>)
    ensures |ks| == |s|
  {
    if s == {} then []
    else
      var m := MinKey(s);
      [m] + SortedKeys(s - {m})
  }

  /** The sorted keys are all the keys of the set, each once, in increasing order. */
  lemma {:induction false} SortedKeysSorted(s: set<string>)
    ensures |SortedKeys(s)| == |s|
    ensures forall k :: k in SortedKeys(s) <==> k in s
    ensures StrictlySorted(SortedKeys(s))
  {
    if s != {} {
      var m := MinKey(s);
      SortedKeysSorted(s - {m});
    }
  }

  /** `Object.keys(entries).filter(k => /^\d{4}-\d{2}-\d{2}$/.test(k))`, as a set. */
  function DateKeys(entries: Entries): set<string> {
    set k | k in entries && IsDateKey(k)
  }

  /** `keys.indexOf(key)`: the first position of `key`, or -1. */
  function IndexOf(ks: seq<string>, key: string): (i: int)
    ensures -1 <= i < |ks|
    ensures i == -1 <==> key !in ks
    ensures i >= 0 ==> ks[i] == key && key !in ks[..i]
  {
    if ks == [] then -1
    else if ks[0] == key then 0
    else
      var i := IndexOf(ks[1..], key);
      if i == -1 then -1 else i + 1
  }

  // ----- entry queries -----

  /** entryCum: the stored value of a key read with parseNum; null for a missing key. */
  function EntryCum(entries: Entries, key: string): (r: Option<nat>)
    ensures r.None? <==> key !in entries || forall i | 0 <= i < |entries[key]| :: !IsDigit(entries[key][i])
    ensures r.Some? ==> r.value == DigitsValue(Digits(entries[key]))
  {
    if key in entries then ParseNum(entries[key]) else None
  }

  /**
   * previousEntryKey: the date key just before `key` in sorted order. Null when
   * `key` is not a stored date key or is the smallest one.
   */
  function PreviousEntryKey(entries: Entries, key: string): (r: Option<string>)
    ensures r.Some? <==>
      key in entries && IsDateKey(key) && exists k | k in entries :: IsDateKey(k) && LexLess(k, key)
    ensures r.Some? ==> r.value in entries && IsDateKey(r.value) && LexLess(r.value, key)
    ensures r.Some? ==> forall k | k in entries && IsDateKey(k) && LexLess(k, key) :: k == r.value || LexLess(k, r.value)
  {
    var ks := SortedKeys(DateKeys(entries));
    var idx := IndexOf(ks, key);
    PredecessorInSorted(entries, ks, key, idx);
    if idx <= 0 then None else Some(ks[idx - 1])
  }

  /** In the sorted date keys, the keys below `key` are exactly those before its position. */
  lemma PredecessorInSorted(entries: Entries, ks: seq<string>, key: string, idx: int)
    requires ks == SortedKeys(DateKeys(entries)) && idx == IndexOf(ks, key)
    ensures idx >= 0 <==> key in entries && IsDateKey(key)
    ensures idx == 0 ==> forall k | k in entries && IsDateKey(k) :: !LexLess(k, key)
    ensures idx > 0 ==> ks[idx - 1] in entries && IsDateKey(ks[idx - 1]) && LexLess(ks[idx - 1], key)
    ensures idx > 0 ==> forall k | k in entries && IsDateKey(k) && LexLess(k, key) :: k == ks[idx - 1] || LexLess(k, ks[idx - 1])
  {
    SortedKeysSorted(DateKeys(entries));
    PredecessorInSeq(ks, DateKeys(entries), key, idx);
  }

  /** In a strictly sorted listing of `s`, the members below `key` are those before its position. */
  lemma PredecessorInSeq(ks: seq<string>, s: set<string>, key: string, idx: int)
    requires StrictlySorted(ks) && (forall k :: k in ks <==> k in s) && idx == IndexOf(ks, key)
    ensures idx >= 0 <==> key in s
    ensures idx == 0 ==> forall k | k in s :: !LexLess(k, key)
    ensures idx > 0 ==> ks[idx - 1] in s && LexLess(ks[idx - 1], key)
    ensures idx > 0 ==> forall k | k in s && LexLess(k, key) :: k == ks[idx - 1] || LexLess(k, ks[idx - 1])
  {
    if idx >= 0 {
      forall k | k in s && LexLess(k, key)
        ensures idx > 0 && (k == ks[idx - 1] || LexLess(k, ks[idx - 1]))
      {
        assert k in ks;
        var j :| 0 <= j < |ks| && ks[j] == k;
        if j == idx {
          LexIrreflexive(key);
        } else if j > idx {
          LexAsymmetric(k, key);
        } else if j < idx - 1 {
          assert LexLess(ks[j], ks[idx - 1]);
        }
      }
      if idx > 0 {
        assert ks[idx - 1] in ks;
        assert LexLess(ks[idx - 1], ks[idx]);
      }
    }
  }

  // ----- month gains -----

  /** A parsable entry in key order: its key and cumulative exp. */
  datatype Reading = Reading(key: string, cum: nat)

  /** The entries of `ks` whose value parses, in order; the others are dropped. */
  function Readings(entries: Entries, ks: seq<string>): seq<Reading> {
    if ks == [] then []
    else
      var init := Readings(entries, ks[..|ks| - 1]);
      var k := ks[|ks| - 1];
      match EntryCum(entries, k)
      case None => init
      case Some(c) => init + [Reading(k, c)]
  }

  /** The gain credited to `next`: how much it exceeds the reading before it, when it falls in the month. */
  function Gain(prev: Reading, next: Reading, year: int, month: int): nat {
    if InMonth(next.key, year, month) && next.cum > prev.cum then next.cum - prev.cum else 0
  }

  /** Sum of the gains of consecutive readings; the first reading contributes nothing. */
  function MonthGain(rs: seq<Reading>, year: int, month: int): nat {
    if |rs| < 2 then 0
    else MonthGain(rs[..|rs| - 1], year, month) + Gain(rs[|rs| - 2], rs[|rs| - 1], year, month)
  }

  /** One more key extends the readings by its reading, if its value parses. */
  lemma ReadingsStep(entries: Entries, ks: seq<string>, i: nat)
    requires i < |ks|
    ensures Readings(entries, ks[..i + 1]) == Readings(entries, ks[..i]) +
      (if EntryCum(entries, ks[i]).Some? then [Reading(ks[i], EntryCum(entries, ks[i]).value)] else [])
  {
    assert ks[..i + 1][..i] == ks[..i];
  }

  /** One more reading adds its gain over the reading before it, if there is one. */
  lemma MonthGainStep(rs: seq<Reading>, r: Reading, year: int, month: int)
    ensures MonthGain(rs + [r], year, month) ==
      MonthGain(rs, year, month) + (if rs == [] then 0 else Gain(rs[|rs| - 1], r, year, month))
  {
    assert (rs + [r])[..|rs|] == rs;
  }

  /** What sumMonthDeltas computes: month gain over the parsable date entries in key order. */
  function MonthGainOf(entries: Entries, year: int, month: int): (g: nat)
    ensures (forall k | k in entries :: !InMonth(k, year, month)) ==> g == 0
  {
    var ks := SortedKeys(DateKeys(entries));
    var rs := Readings(entries, ks);
    if forall k | k in entries :: !InMonth(k, year, month) then
      NoMonthReadings(entries, ks, rs, year, month);
      MonthGainOutsideMonth(rs, year, month);
      MonthGain(rs, year, month)
    else
      MonthGain(rs, year, month)
  }

  /** An entry whose value does not parse can sit anywhere in the key order without changing the readings. */
  lemma {:induction false} UnparsableSkipped(entries: Entries, ks: seq<string>, i: nat, k: string)
    requires i <= |ks|
    requires EntryCum(entries, k).None?
    ensures Readings(entries, ks[..i] + [k] + ks[i..]) == Readings(entries, ks)
    decreases |ks| - i
  {
    var s := ks[..i] + [k] + ks[i..];
    if i == |ks| {
      assert s[..|s| - 1] == ks;
    } else {
      var init := ks[..|ks| - 1];
      UnparsableSkipped(entries, init, i, k);
      assert s[..|s| - 1] == init[..i] + [k] + init[i..];
      assert s[|s| - 1] == ks[|ks| - 1];
    }
  }

  /** Readings whose later keys all lie outside the month contribute nothing. */
  lemma {:induction false} MonthGainOutsideMonth(rs: seq<Reading>, year: int, month: int)
    requires forall i | 0 < i < |rs| :: !InMonth(rs[i].key, year, month)
    ensures MonthGain(rs, year, month) == 0
  {
    if |rs| >= 2 {
      MonthGainOutsideMonth(rs[..|rs| - 1], year, month);
    }
  }

  /**
   * When the readings never decrease and all but the first lie in the month,
   * the month gain telescopes to last minus first.
   */
  lemma {:induction false} MonthGainTelescopes(rs: seq<Reading>, year: int, month: int)
    requires |rs| >= 1
    requires forall i | 0 < i < |rs| :: InMonth(rs[i].key, year, month) && rs[i - 1].cum <= rs[i].cum
    ensures MonthGain(rs, year, month) == rs[|rs| - 1].cum - rs[0].cum
  {
    if |rs| >= 2 {
      var init := rs[..|rs| - 1];
      forall i | 0 < i < |init| ensures InMonth(init[i].key, year, month) && init[i - 1].cum <= init[i].cum {
        assert init[i] == rs[i] && init[i - 1] == rs[i - 1];
      }
      MonthGainTelescopes(init, year, month);
      var n := |rs| - 1;
      assert InMonth(rs[n].key, year, month) && rs[n - 1].cum <= rs[n].cum;
    }
  }

  /** Every reading comes from a key of `ks` whose value parses to its cum. */
  lemma {:induction false} ReadingsFromKeys(entries: Entries, ks: seq<string>)
    ensures forall r | r in Readings(entries, ks) :: r.key in ks && EntryCum(entries, r.key) == Some(r.cum)
  {
    if ks != [] {
      ReadingsFromKeys(entries, ks[..|ks| - 1]);
    }
  }

  /** When no stored key lies in the month, no reading of the sorted date keys does either. */
  lemma NoMonthReadings(entries: Entries, ks: seq<string>, rs: seq<Reading>, year: int, month: int)
    requires ks == SortedKeys(DateKeys(entries)) && rs == Readings(entries, ks)
    requires forall k | k in entries :: !InMonth(k, year, month)
    ensures forall i | 0 < i < |rs| :: !InMonth(rs[i].key, year, month)
  {
    ReadingsFromKeys(entries, ks);
    forall i | 0 < i < |rs| ensures !InMonth(rs[i].key, year, month) {
      assert rs[i] in rs;
    }
  }
}
