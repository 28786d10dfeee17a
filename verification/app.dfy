/**
 * The widget's state and the updates its handlers make (app.js, "State",
 * "Events", month navigation and the integer part of "Rendering").
 *
 * The selected day enters as its `YYYY-MM-DD` key (what `ymd(state.selected)`
 * produces); the prompt's answer enters as a parameter.
 */
module App {
  import opened Wrappers
  import opened Numbers
  import opened RankTable
  import opened History
  import opened Progress

  const DefaultTargetRank: int := 2500
  const MaxTargetRank: int := 2500

  /**
   * The least integer that `Number()` reads as Infinity: 2^1024 - 2^970, halfway
   * between the largest double and 2^1024 (ties round to the even significand).
   */
  const NumberOverflow: nat := 179769313486231580793728971405303415079934132710037826936173778980444968292764750946649017977587207096330286416692887910946555547851940402630657488671505820681908902000708383676273854845817711531764475730270069855571366959622842914819860834936475292719074168444365510704342711559699508093042880177904174497792

  // ----- month navigation -----

  /** The (year, 0-based month) after nextMonth. */
  function NextView(year: int, month: int): (v: (int, int))
    ensures 0 <= month < 12 ==> 0 <= v.1 < 12 && v.0 * 12 + v.1 == year * 12 + month + 1
  {
    if month + 1 >= 12 then (year + 1, 0) else (year, month + 1)
  }

  /** The (year, 0-based month) after prevMonth. */
  function PrevView(year: int, month: int): (v: (int, int))
    ensures 0 <= month < 12 ==> 0 <= v.1 < 12 && v.0 * 12 + v.1 == year * 12 + month - 1
  {
    if month - 1 < 0 then (year - 1, 11) else (year, month - 1)
  }

  lemma PrevAfterNext(year: int, month: int)
    requires 0 <= month < 12
    ensures PrevView(NextView(year, month).0, NextView(year, month).1) == (year, month)
  {
  }

  lemma NextAfterPrev(year: int, month: int)
    requires 0 <= month < 12
    ensures NextView(PrevView(year, month).0, PrevView(year, month).1) == (year, month)
  {
  }

  // ----- handlers, as functions of the old state -----

  /**
   * The entries after the cumulative-exp input: the selected key is deleted when
   * the input has no digit, otherwise set to the canonical decimal of its digits.
   */
  function SetCum(entries: Entries, key: string, input: string): (r: Entries)
    ensures key !in r <==> ParseNum(input).None?
    ensures key in r ==> AllDigits(r[key]) && |r[key]| >= 1 && (r[key][0] == '0' ==> r[key] == "0")
    ensures EntryCum(r, key) == ParseNum(input)
    ensures forall k | k != key :: (k in r <==> k in entries) && (k in r ==> r[k] == entries[k])
  {
    match ParseNum(input)
    case None => entries - {key}
    case Some(n) =>
      DecimalRoundTrip(n);
      entries[key := DecimalString(n)]
  }

  /**
   * The target rank after the prompt: unchanged on cancel, when the digits of
   * the answer read as less than 1 or as Infinity; otherwise clamped to 1..2500.
   */
  function TargetFromPrompt(current: int, answer: Option<string>): (r: int)
    ensures r == current || 1 <= r <= MaxTargetRank
    ensures answer.None? || ParseNum(answer.value).None? ==> r == current
    ensures answer.Some? && ParseNum(answer.value).Some? && 1 <= ParseNum(answer.value).value <= MaxTargetRank
      ==> r == ParseNum(answer.value).value
    ensures answer.Some? && ParseNum(answer.value).Some? && MaxTargetRank < ParseNum(answer.value).value < NumberOverflow
      ==> r == MaxTargetRank
    ensures answer.Some? && ParseNum(answer.value).Some? && ParseNum(answer.value).value < 1 ==> r == current
    ensures answer.Some? && ParseNum(answer.value).Some? && NumberOverflow <= ParseNum(answer.value).value
      ==> r == current
  {
    match answer
    case None => current
    case Some(v) =>
      var digits := Digits(v);
      var n := if digits == [] then 0 else DigitsValue(digits);
      if n >= NumberOverflow || n < 1 then current
      else if n < MaxTargetRank then n else MaxTargetRank
  }

  // ----- the state object -----

  class State {
    var viewYear: int
    var viewMonth: int
    var entries: Entries
    var targetRank: int
    var expByRank: Option<Table>

    constructor (year: int, month: int)
      ensures viewYear == year && viewMonth == month
      ensures entries == map[] && targetRank == DefaultTargetRank && expByRank == None
    {
      viewYear := year;
      viewMonth := month;
      entries := map[];
      targetRank := DefaultTargetRank;
      expByRank := None;
    }

    method NextMonth()
      modifies this`viewYear, this`viewMonth
      ensures (viewYear, viewMonth) == NextView(old(viewYear), old(viewMonth))
    {
      viewMonth := viewMonth + 1;
      if viewMonth >= 12 {
        viewMonth := 0;
        viewYear := viewYear + 1;
      }
    }

    method PrevMonth()
      modifies this`viewYear, this`viewMonth
      ensures (viewYear, viewMonth) == PrevView(old(viewYear), old(viewMonth))
    {
      viewMonth := viewMonth - 1;
      if viewMonth < 0 {
        viewMonth := 11;
        viewYear := viewYear - 1;
      }
    }

    /** The `input` listener on the cumulative-exp field, for the selected day's key. */
    method OnCumInput(key: string, input: string, composing: bool)
      modifies this`entries
      ensures entries == if composing then old(entries) else SetCum(old(entries), key, input)
    {
      if composing {
        return;
      }
      var n := ParseNum(input);
      if n.None? {
        entries := entries - {key};
      } else {
        entries := entries[key := DecimalString(n.value)];
      }
    }

    /** The target button's handler, given what the prompt returned (None for cancel). */
    method OnTargetPrompt(answer: Option<string>)
      modifies this`targetRank
      ensures targetRank == TargetFromPrompt(old(targetRank), answer)
    {
      if answer.None? {
        return;
      }
      var digits := Digits(answer.value);
      var n := if digits == [] then 0 else DigitsValue(digits);
      if n >= NumberOverflow || n < 1 {
        return;
      }
      targetRank := if n > MaxTargetRank then MaxTargetRank else if n < 1 then 1 else n;
    }

    /** loadRankTable once the text has been fetched. */
    method LoadRankTable(text: string)
      modifies this`expByRank
      ensures expByRank == Some(ParseRows(Lines(text)[1..]))
    {
      var arr := BuildTable(text);
      expByRank := Some(arr);
    }

    /** latestEntryInMonth: the greatest date key of the month, or null. */
    method LatestEntryInMonth(year: int, month: int) returns (best: Option<string>)
      ensures best.None? <==> forall k | k in entries :: !InMonth(k, year, month)
      ensures best.Some? ==> best.value in entries && InMonth(best.value, year, month)
      ensures best.Some? ==> forall k | k in entries && InMonth(k, year, month) :: k == best.value || LexLess(k, best.value)
    {
      var keys := entries.Keys;
      ghost var seen: set<string> := {};
      best := None;
      while keys != {}
        invariant keys + seen == entries.Keys && keys !! seen
        invariant best.None? <==> forall k | k in seen :: !InMonth(k, year, month)
        invariant best.Some? ==> best.value in seen && InMonth(best.value, year, month)
        invariant best.Some? ==> forall k | k in seen && InMonth(k, year, month) :: k == best.value || LexLess(k, best.value)
        decreases keys
      {
        var k :| k in keys;
        keys := keys - {k};
        seen := seen + {k};
        if InMonth(k, year, month) {
          if best.None? || LexLess(best.value, k) {
            if best.Some? {
              forall k' | k' in seen && InMonth(k', year, month) && k' != k && k' != best.value
                ensures LexLess(k', k)
              {
                LexTransitive(k', best.value, k);
              }
            }
            best := Some(k);
          } else if k != best.value {
            LexTotal(k, best.value);
          }
        }
      }
    }

    /**
     * sumMonthDeltas: over the date keys in sorted order, the positive increase of
     * each parsable entry over the previous parsable one, counted when the later
     * key lies in the month.
     */
    method SumMonthDeltas(year: int, month: int) returns (total: int)
      ensures total == MonthGainOf(entries, year, month)
    {
      var es := entries;
      var keys := SortedKeys(DateKeys(es));
      total := 0;
      var prevCum: Option<nat> := None;
      ghost var readings: seq<Reading> := [];
      for i := 0 to |keys|
        invariant readings == Readings(es, keys[..i])
        invariant total == MonthGain(readings, year, month)
        invariant prevCum.None? <==> readings == []
        invariant prevCum.Some? ==> prevCum.value == readings[|readings| - 1].cum
      {
        ReadingsStep(es, keys, i);
        var k := keys[i];
        var cum := EntryCum(es, k);
        if cum.Some? {
          MonthGainStep(readings, Reading(k, cum.value), year, month);
          if prevCum.Some? {
            var delta := cum.value - prevCum.value;
            if InMonth(k, year, month) && delta > 0 {
              total := total + delta;
            }
          }
          prevCum := cum;
          readings := readings + [Reading(k, cum.value)];
        }
      }
      assert keys[..|keys|] == keys;
    }

    /**
     * The month figures of renderHeader: the cum of the month's latest key (0 when
     * the month has none) and the month gain, which is 0 for an empty month.
     */
    method MonthSummary() returns (lastCum: Option<nat>, gain: int)
      ensures gain == MonthGainOf(entries, viewYear, viewMonth)
      ensures (forall k | k in entries :: !InMonth(k, viewYear, viewMonth)) ==> lastCum == Some(0)
      ensures (exists k | k in entries :: InMonth(k, viewYear, viewMonth)) ==>
        exists last | last in entries && InMonth(last, viewYear, viewMonth) ::
          && lastCum == EntryCum(entries, last)
          && forall k | k in entries && InMonth(k, viewYear, viewMonth) :: k == last || LexLess(k, last)
    {
      var lastKey := LatestEntryInMonth(viewYear, viewMonth);
      lastCum := if lastKey.Some? then EntryCum(entries, lastKey.value) else Some(0);
      gain := 0;
      if lastKey.Some? {
        gain := SumMonthDeltas(viewYear, viewMonth);
        if gain < 0 {
          gain := 0;
        }
      }
    }

    /**
     * The target figures of renderHeader for the selected day: the exp still
     * needed and the ring's progress, against the target rank's exp.
     */
    method TargetStatus(selKey: string) returns (need: Option<nat>, bp: nat)
      ensures need.None? <==> ExpForRank(expByRank, targetRank).None?
      ensures need.Some? ==> EntryCum(entries, selKey).GetOr(0) + need.value >= ExpForRank(expByRank, targetRank).value
      ensures need == Need(ExpForRank(expByRank, targetRank), EntryCum(entries, selKey).GetOr(0))
      ensures bp == ProgressBasisPoints(EntryCum(entries, selKey).GetOr(0), ExpForRank(expByRank, targetRank))
    {
      var selCum := EntryCum(entries, selKey).GetOr(0);
      var targetExp := ExpForRank(expByRank, targetRank);
      need := Need(targetExp, selCum);
      bp := ProgressBasisPoints(selCum, targetExp);
    }
  }
}
