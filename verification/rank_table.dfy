/**
 * The rank table of the calendar widget (app.js, "Rank Table"): the step that
 * turns the text of `rank_table.csv` into a sparse array `rank -> cumulative exp`,
 * the binary search `rankFromCum` and the direct lookup `expForRank`.
 *
 * A JavaScript sparse array is modelled as `seq<Option<nat>>`: `None` is a hole,
 * and the length is one more than the largest index ever assigned.
 */
module RankTable {
  import opened Wrappers
  import opened Numbers

  type Table = seq<Option<nat>>

  /** Array indices are below 2^32 - 1; a larger "rank" would be a plain property, not a slot. */
  const ArrayIndexLimit: nat := 4294967295

  datatype Row = Row(rank: nat, exp: nat)

  // ----- text to lines -----

  /** The characters `String.prototype.trim` removes: WhiteSpace and LineTerminator. */
  predicate IsTrimmed(c: char) {
    || c == '\t' || c == '\n' || c == '\U{000B}' || c == '\U{000C}' || c == '\r' || c == ' '
    || c == '\U{00A0}' || c == '\U{1680}' || ('\U{2000}' <= c <= '\U{200A}')
    || c == '\U{2028}' || c == '\U{2029}' || c == '\U{202F}' || c == '\U{205F}'
    || c == '\U{3000}' || c == '\U{FEFF}'
  }

  /** `trim` at the start: drops the leading white space and nothing else. */
  function TrimStart(s: string): (r: string)
    ensures |r| <= |s| && r == s[|s| - |r|..]
    ensures forall i | 0 <= i < |s| - |r| :: IsTrimmed(s[i])
    ensures r == [] || !IsTrimmed(r[0])
  {
    if s != [] && IsTrimmed(s[0]) then TrimStart(s[1..]) else s
  }

  /** `trim` at the end: drops the trailing white space and nothing else. */
  function TrimEnd(s: string): (r: string)
    ensures |r| <= |s| && r == s[..|r|]
    ensures forall i | |r| <= i < |s| :: IsTrimmed(s[i])
    ensures r == [] || !IsTrimmed(r[|r| - 1])
  {
    if s != [] && IsTrimmed(s[|s| - 1]) then TrimEnd(s[..|s| - 1]) else s
  }

  /** How many leading characters `trim` drops. */
  function TrimOffset(s: string): (a: nat)
    ensures a <= |s|
  {
    |s| - |TrimStart(s)|
  }

  /** `s.trim()`: the longest slice of `s` that neither starts nor ends with white space. */
  function Trim(s: string): (r: string)
    ensures TrimOffset(s) + |r| <= |s| && r == s[TrimOffset(s)..TrimOffset(s) + |r|]
    ensures forall i | 0 <= i < TrimOffset(s) :: IsTrimmed(s[i])
    ensures forall i | TrimOffset(s) + |r| <= i < |s| :: IsTrimmed(s[i])
    ensures r == [] || (!IsTrimmed(r[0]) && !IsTrimmed(r[|r| - 1]))
  {
    var t := TrimStart(s);
    var r := TrimEnd(t);
    var a := |s| - |t|;
    assert forall i | a + |r| <= i < |s| :: s[i] == t[i - a];
    r
  }

  /** `s.split(sep)` for a one-character separator. */
  function SplitOn(s: string, sep: char): (parts: seq<string>)
    ensures |parts| >= 1
    ensures forall i | 0 <= i < |parts| :: sep !in parts[i]
    ensures sep !in s ==> parts == [s]
  {
    if s == [] then [[]]
    else
      var rest := SplitOn(s[1..], sep);
      if s[0] == sep then [[]] + rest
      else
        assert s == [s[0]] + s[1..];
        [[s[0]] + rest[0]] + rest[1..]
  }

  /** Joining the pieces of a split with the separator gives back the original string. */
  function Join(parts: seq<string>, sep: char): string
    requires |parts| >= 1
  {
    if |parts| == 1 then parts[0] else parts[0] + [sep] + Join(parts[1..], sep)
  }

  /** Splitting and joining back with the same separator gives the original string. */
  lemma {:induction false} SplitJoin(s: string, sep: char)
    ensures Join(SplitOn(s, sep), sep) == s
  {
    if s != [] {
      var rest := SplitOn(s[1..], sep);
      SplitJoin(s[1..], sep);
      if s[0] == sep {
        assert s == [s[0]] + s[1..];
      } else if |rest| == 1 {
        assert s == [s[0]] + rest[0];
      } else {
        assert rest == [rest[0]] + rest[1..];
        assert Join(rest, sep) == rest[0] + [sep] + Join(rest[1..], sep);
        assert s == [s[0]] + s[1..];
      }
    }
  }

  predicate EndsWithCR(p: string) {
    |p| > 0 && p[|p| - 1] == '\r'
  }

  function DropCR(p: string): string {
    if EndsWithCR(p) then p[..|p| - 1] else p
  }

  /** The pieces between line feeds, the carriage return that ends each but the last removed. */
  function DropCRs(parts: seq<string>): (lines: seq<string>)
    ensures |lines| == |parts|
  {
    seq(|parts|, i requires 0 <= i < |parts| => if i < |parts| - 1 then DropCR(parts[i]) else parts[i])
  }

  /**
   * `s.split(/\r?\n/)`: every line feed ends a line, and a carriage return just
   * before it goes with it; a carriage return at the very end stays.
   */
  function SplitLines(s: string): (lines: seq<string>)
    ensures |lines| >= 1
    ensures forall i | 0 <= i < |lines| :: '\n' !in lines[i]
  {
    var parts := SplitOn(s, '\n');
    var lines := DropCRs(parts);
    assert forall i | 0 <= i < |lines| :: multiset(lines[i]) <= multiset(parts[i]) by {
      forall i | 0 <= i < |lines| ensures multiset(lines[i]) <= multiset(parts[i]) {
        if i < |parts| - 1 && EndsWithCR(parts[i]) {
          assert parts[i] == lines[i] + [parts[i][|parts[i]| - 1]];
        }
      }
    }
    lines
  }

  /** For each line but the last, whether the separator after it was `\r\n` rather than `\n`. */
  function LineEnds(s: string): (crs: seq<bool>)
    ensures |crs| == |SplitLines(s)| - 1
  {
    var parts := SplitOn(s, '\n');
    seq(|parts| - 1, i requires 0 <= i < |parts| - 1 => EndsWithCR(parts[i]))
  }

  /** Lines put back together, each but the last followed by the separator it had. */
  function Unsplit(lines: seq<string>, crs: seq<bool>): string
    requires |lines| >= 1 && |crs| == |lines| - 1
  {
    if |lines| == 1 then lines[0]
    else lines[0] + (if crs[0] then "\r\n" else "\n") + Unsplit(lines[1..], crs[1..])
  }

  /** Splitting into lines loses nothing: the lines with their separators give back the text. */
  lemma SplitLinesUnsplit(s: string)
    ensures Unsplit(SplitLines(s), LineEnds(s)) == s
  {
    var parts := SplitOn(s, '\n');
    UnsplitJoin(parts);
    SplitJoin(s, '\n');
  }

  lemma {:induction false} UnsplitJoin(parts: seq<string>)
    requires |parts| >= 1
    ensures Unsplit(DropCRs(parts), seq(|parts| - 1, i requires 0 <= i < |parts| - 1 => EndsWithCR(parts[i])))
      == Join(parts, '\n')
  {
    var crs := seq(|parts| - 1, i requires 0 <= i < |parts| - 1 => EndsWithCR(parts[i]));
    if |parts| > 1 {
      var rest := parts[1..];
      UnsplitJoin(rest);
      assert DropCRs(parts)[1..] == DropCRs(rest);
      assert crs[1..] == seq(|rest| - 1, i requires 0 <= i < |rest| - 1 => EndsWithCR(rest[i]));
      var p := parts[0];
      if EndsWithCR(p) {
        assert DropCR(p) + "\r\n" == p + "\n";
      }
    }
  }

  /** The lines of the table text: `text.trim().split(/\r?\n/)`. */
  function Lines(text: string): (lines: seq<string>)
    ensures |lines| >= 1
    ensures forall i | 0 <= i < |lines| :: '\n' !in lines[i]
  {
    SplitLines(Trim(text))
  }

  // ----- one row -----

  /**
   * `Number(r)` on the rank field, reduced to what can index the array: a
   * non-empty digit string whose value is an array index.
   */
  function ParseRank(field: string): (r: Option<nat>)
    ensures r.Some? ==> r.value < ArrayIndexLimit
    ensures r.Some? ==> AllDigits(field) && field != [] && r.value == DigitsValue(field)
    ensures r.None? ==> field == [] || !AllDigits(field) || DigitsValue(field) >= ArrayIndexLimit
  {
    if field != [] && AllDigits(field) && DigitsValue(field) < ArrayIndexLimit
    then Some(DigitsValue(field)) else None
  }

  /**
   * One data line: `const [r, e] = line.split(',')`; the row is kept only when
   * the rank reads as a number and `parseNum(e)` is not null (a missing second
   * field is `undefined`, which `parseNum` maps to null).
   */
  function ParseRow(line: string): (r: Option<Row>)
    ensures ',' !in line ==> r.None?
    ensures r.Some? ==> r.value.rank < ArrayIndexLimit
    ensures r.Some? <==>
      |SplitOn(line, ',')| >= 2 && ParseRank(SplitOn(line, ',')[0]).Some? && ParseNum(SplitOn(line, ',')[1]).Some?
    ensures r.Some? ==> ParseRank(SplitOn(line, ',')[0]) == Some(r.value.rank)
    ensures r.Some? ==> ParseNum(SplitOn(line, ',')[1]) == Some(r.value.exp)
  {
    var fields := SplitOn(line, ',');
    var rank := ParseRank(fields[0]);
    var exp := if |fields| >= 2 then ParseNum(fields[1]) else None;
    if rank.Some? && exp.Some? then Some(Row(rank.value, exp.value)) else None
  }

  /** Splitting `a + [sep] + b` cuts at the separator that follows `a`. */
  lemma {:induction false} SplitOnCons(a: string, sep: char, b: string)
    requires sep !in a
    ensures SplitOn(a + [sep] + b, sep) == [a] + SplitOn(b, sep)
  {
    var s := a + [sep] + b;
    if a == [] {
      assert s[1..] == b;
    } else {
      assert s[1..] == a[1..] + [sep] + b;
      SplitOnCons(a[1..], sep, b);
      assert [a[0]] + a[1..] == a;
    }
  }

  /** The line `rank,exp` written in canonical decimal reads back as that row. */
  lemma RowRoundTrip(rank: nat, exp: nat)
    requires rank < ArrayIndexLimit
    ensures ParseRow(DecimalString(rank) + [','] + DecimalString(exp)) == Some(Row(rank, exp))
  {
    var a, b := DecimalString(rank), DecimalString(exp);
    assert ',' !in a by {
      forall i | 0 <= i < |a| ensures a[i] != ',' {
        assert IsDigit(a[i]);
      }
    }
    assert ',' !in b by {
      forall i | 0 <= i < |b| ensures b[i] != ',' {
        assert IsDigit(b[i]);
      }
    }
    SplitOnCons(a, ',', b);
    DecimalRoundTrip(exp);
  }

  // ----- the table -----

  /** `arr[rank] = exp`: overwrite the slot, or grow the array with holes up to it. */
  function Store(arr: Table, row: Row): (r: Table)
    ensures |r| == if row.rank < |arr| then |arr| else row.rank + 1
    ensures r[row.rank] == Some(row.exp)
    ensures forall i | 0 <= i < |r| && i != row.rank :: r[i] == if i < |arr| then arr[i] else None
  {
    if row.rank < |arr| then arr[row.rank := Some(row.exp)]
    else arr + seq(row.rank - |arr|, _ => None) + [Some(row.exp)]
  }

  /** The array the data rows build, row after row; malformed rows are skipped. */
  function ParseRows(rows: seq<string>): (arr: Table)
    ensures arr == [] || arr[|arr| - 1].Some?
    ensures |arr| <= ArrayIndexLimit
  {
    if rows == [] then []
    else
      var arr := ParseRows(rows[..|rows| - 1]);
      match ParseRow(rows[|rows| - 1])
      case None => arr
      case Some(row) => Store(arr, row)
  }

  /** Reading slot `rank` of a JavaScript array: a hole or an index past the end is `undefined`. */
  function Get(arr: Table, rank: int): Option<nat> {
    if 0 <= rank < |arr| then arr[rank] else None
  }

  /** Reference reading of the CSV: the exp of the LAST well-formed row with this rank. */
  function LastExp(rows: seq<string>, rank: nat): Option<nat> {
    if rows == [] then None
    else
      var last := ParseRow(rows[|rows| - 1]);
      if last.Some? && last.value.rank == rank then Some(last.value.exp)
      else LastExp(rows[..|rows| - 1], rank)
  }

  /**
   * The loop of loadRankTable without the `fetch`: the header line is skipped,
   * every later line that reads as a row is stored at its rank.
   */
  method BuildTable(text: string) returns (arr: Table)
    ensures arr == ParseRows(Lines(text)[1..])
    ensures forall rank: nat :: Get(arr, rank) == LastExp(Lines(text)[1..], rank)
  {
    var lines := Lines(text);
    arr := [];
    var i := 1;
    while i < |lines|
      invariant 1 <= i <= |lines|
      invariant arr == ParseRows(lines[1..i])
    {
      ParseRowsStep(lines, i);
      var row := ParseRow(lines[i]);
      if row.Some? {
        arr := Store(arr, row.value);
      }
      i := i + 1;
    }
    assert lines[1..i] == lines[1..];
    TableAgreesWithAllRows(lines[1..]);
  }

  /** One more data line stores its row, if it reads as one. */
  lemma ParseRowsStep(lines: seq<string>, i: nat)
    requires 1 <= i < |lines|
    ensures ParseRows(lines[1..i + 1]) ==
      if ParseRow(lines[i]).Some? then Store(ParseRows(lines[1..i]), ParseRow(lines[i]).value) else ParseRows(lines[1..i])
  {
    assert lines[1..i + 1][..i - 1] == lines[1..i];
  }

  lemma TableAgreesWithAllRows(rows: seq<string>)
    ensures forall rank: nat :: Get(ParseRows(rows), rank) == LastExp(rows, rank)
  {
    forall rank: nat ensures Get(ParseRows(rows), rank) == LastExp(rows, rank) {
      TableAgreesWithRows(rows, rank);
    }
  }

  /** Every slot of the built array holds the exp of the last row for that rank, and nothing else. */
  lemma {:induction false} TableAgreesWithRows(rows: seq<string>, rank: nat)
    ensures Get(ParseRows(rows), rank) == LastExp(rows, rank)
  {
    if rows != [] {
      TableAgreesWithRows(rows[..|rows| - 1], rank);
    }
  }

  /** A line that does not read as a row can be inserted anywhere without changing the table. */
  lemma {:induction false} MalformedRowIgnored(rows: seq<string>, i: nat, bad: string)
    requires i <= |rows|
    requires ParseRow(bad).None?
    ensures ParseRows(rows[..i] + [bad] + rows[i..]) == ParseRows(rows)
    decreases |rows| - i
  {
    if i == |rows| {
      ParseRowsSnoc(rows, bad);
      assert rows[..i] + [bad] + rows[i..] == rows + [bad];
    } else {
      var init := rows[..|rows| - 1];
      var last := rows[|rows| - 1];
      MalformedRowIgnored(init, i, bad);
      ParseRowsSnoc(init[..i] + [bad] + init[i..], last);
      ParseRowsSnoc(init, last);
      InsertBeforeLast(rows, i, bad);
    }
  }

  /** Inserting before index `i < |xs|` keeps the last element last. */
  lemma InsertBeforeLast<T>(xs: seq<T>, i: nat, x: T)
    requires i < |xs|
    ensures xs == xs[..|xs| - 1] + [xs[|xs| - 1]]
    ensures xs[..i] + [x] + xs[i..] == (xs[..|xs| - 1][..i] + [x] + xs[..|xs| - 1][i..]) + [xs[|xs| - 1]]
  {
    var init := xs[..|xs| - 1];
    assert xs[..i] == init[..i];
    assert xs[i..] == init[i..] + [xs[|xs| - 1]];
  }

  /** Appending a line applies its row, if it reads as one, to the table so far. */
  lemma ParseRowsSnoc(rows: seq<string>, line: string)
    ensures ParseRows(rows + [line]) ==
      if ParseRow(line).Some? then Store(ParseRows(rows), ParseRow(line).value) else ParseRows(rows)
  {
    assert (rows + [line])[..|rows|] == rows;
  }

  /** A later row for a rank wins over every earlier one, and leaves the other ranks as they were. */
  lemma LaterRowWins(rows: seq<string>, line: string, rank: nat, exp: nat)
    requires ParseRow(line) == Some(Row(rank, exp))
    ensures Get(ParseRows(rows + [line]), rank) == Some(exp)
    ensures forall other: nat | other != rank ::
      Get(ParseRows(rows + [line]), other) == Get(ParseRows(rows), other)
  {
    assert (rows + [line])[..|rows|] == rows;
  }

  // ----- queries -----

  /** expForRank: the stored exp of exactly this rank; `null` for a hole, a rank past the end or no table. */
  function ExpForRank(table: Option<Table>, rank: int): (r: Option<nat>)
    ensures r.Some? <==> table.Some? && 0 <= rank < |table.value| && table.value[rank].Some?
    ensures r.Some? ==> r == table.value[rank]
  {
    match table
    case None => None
    case Some(arr) => Get(arr, rank)
  }

  /** For a table built from rows, expForRank is the exp of the last row for that rank. */
  lemma ExpForLoadedRank(rows: seq<string>, rank: int)
    ensures ExpForRank(Some(ParseRows(rows)), rank) == if rank < 0 then None else LastExp(rows, rank)
  {
    if rank >= 0 {
      TableAgreesWithRows(rows, rank);
    }
  }

  /** Slots 1..|arr|-1 are all present and non-decreasing (slot 0 is never looked at). */
  ghost predicate Complete(arr: Table) {
    forall i, j | 1 <= i <= j < |arr| :: arr[i].Some? && arr[j].Some? && arr[i].value <= arr[j].value
  }

  predicate AtMost(arr: Table, i: nat, cum: nat)
    requires i < |arr|
  {
    arr[i].Some? && arr[i].value <= cum
  }

  /** Reference search: scanning down from `i`, the first slot whose exp is at most `cum`, else 1. */
  function RankScan(arr: Table, cum: nat, i: int): (r: nat)
    requires i < |arr|
    ensures 1 <= r && (r <= i || r == 1)
    ensures r == 1 || AtMost(arr, r, cum)
    ensures forall j | r < j <= i :: !AtMost(arr, j, cum)
    decreases i
  {
    if i < 1 then 1
    else if AtMost(arr, i, cum) then i
    else RankScan(arr, cum, i - 1)
  }

  /** The largest rank whose exp is at most `cum`, or 1 when there is none. */
  function LinearRank(arr: Table, cum: nat): nat {
    RankScan(arr, cum, |arr| - 1)
  }

  /**
   * `x >> 1` on a JavaScript number: the operand is first wrapped to a signed
   * 32-bit integer, then shifted arithmetically (a floor division by 2).
   */
  function ShiftRight1(x: int): (r: int)
    ensures 0 <= x < 0x8000_0000 ==> r == x / 2
    ensures 0x8000_0000 <= x < 0x1_0000_0000 ==> r < 0
  {
    var w := x % 0x1_0000_0000;
    (if w >= 0x8000_0000 then w - 0x1_0000_0000 else w) / 2
  }

  /** The largest table on which the midpoint `(lo + hi) >> 1` never wraps. */
  const NoWrapLength: nat := 0x4000_0000

  /**
   * rankFromCum: binary search over slots 1..|arr|-1 keeping the last slot whose
   * exp was at most `cum`. A hole, or a negative midpoint from the 32-bit shift,
   * is treated like an exp greater than `cum`. A JavaScript array has at most
   * 2^32 - 1 slots. `probed` collects every index the search reads.
   */
  method RankFromCum(table: Option<Table>, cum: Option<nat>) returns (rank: Option<nat>, ghost probed: set<int>)
    requires table.Some? ==> |table.value| <= ArrayIndexLimit
    ensures rank.None? <==> table.None? || cum.None?
    ensures rank.Some? ==> 1 <= rank.value && (rank.value == 1 || rank.value < |table.value|)
    ensures rank.Some? ==> rank.value == 1 || AtMost(table.value, rank.value, cum.value)
    ensures rank.Some? && Complete(table.value) && |table.value| <= NoWrapLength ==>
      rank.value == LinearRank(table.value, cum.value)
    ensures rank.Some? && |table.value| >= 0x8000_0000 ==> rank.value == 1
    ensures 0 !in probed
  {
    probed := {};
    if table.None? || cum.None? {
      return None, probed;
    }
    var arr, c := table.value, cum.value;
    var lo, hi, ans := 1, |arr| - 1, 1;
    while lo <= hi
      invariant 1 <= lo && hi < |arr| && lo + hi < 0x1_0000_0000
      invariant ans == if lo == 1 then 1 else lo - 1
      invariant lo > 1 ==> lo - 1 < |arr| && AtMost(arr, lo - 1, c)
      invariant |arr| >= 0x8000_0000 ==> lo == 1 && (hi == |arr| - 1 || hi < 1)
      invariant |arr| <= NoWrapLength ==> lo <= hi + 1 || |arr| == 0
      invariant Complete(arr) && |arr| <= NoWrapLength ==> forall j | 1 <= j < lo :: AtMost(arr, j, c)
      invariant Complete(arr) && |arr| <= NoWrapLength ==> forall j | hi < j < |arr| && 1 <= j :: !AtMost(arr, j, c)
      invariant 0 !in probed
      decreases hi - lo
    {
      var mid := ShiftRight1(lo + hi);
      probed := probed + {mid};
      var v := Get(arr, mid);
      if v.Some? && v.value <= c {
        ans := mid;
        lo := mid + 1;
      } else {
        hi := mid - 1;
      }
    }
    rank := Some(ans);
  }

  /** On a complete table with distinct exps, an exact threshold maps back to its own rank. */
  lemma InverseLookup(arr: Table, r: nat)
    requires Complete(arr) && 1 <= r < |arr|
    requires forall i, j | 1 <= i < j < |arr| :: arr[i].value < arr[j].value
    ensures LinearRank(arr, arr[r].value) == r
  {
    assert AtMost(arr, r, arr[r].value);
  }

  /** Once `cum` reaches the exp of rank 1, the rank found never needs more exp than `cum`. */
  lemma RankExpAtMostCum(arr: Table, cum: nat)
    requires Complete(arr) && |arr| >= 2 && arr[1].value <= cum
    ensures ExpForRank(Some(arr), LinearRank(arr, cum)).Some?
    ensures ExpForRank(Some(arr), LinearRank(arr, cum)).value <= cum
  {
  }
}
