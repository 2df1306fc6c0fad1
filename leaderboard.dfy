/**
 * The pure parts of the tetris.js leaderboard: the `M:SS.d` time format and
 * the local top-10 update (push, sort by time, keep ten).
 */
module Leaderboard {

  // ------------------------------------------------------------ time format

  predicate IsDigit(c: char) {
    '0' <= c <= '9'
  }

  predicate AllDigits(s: string)
    decreases |s|
  {
    s == [] || (AllDigits(s[..|s| - 1]) && IsDigit(s[|s| - 1]))
  }

  function DigitChar(d: nat): (c: char)
    requires d < 10
    ensures IsDigit(c)
  {
    ('0' as int + d) as char
  }

  function DigitValue(c: char): (d: nat)
    requires IsDigit(c)
    ensures d < 10 && DigitChar(d) == c
  {
    c as int - '0' as int
  }

  /** JavaScript's `${n}` for a non-negative integer: decimal digits, no leading zero. */
  function DecimalString(n: nat): (s: string)
    ensures |s| >= 1 && AllDigits(s)
    ensures s[0] == '0' ==> n == 0
    ensures n < 10 ==> |s| == 1
    decreases n
  {
    if n < 10 then [DigitChar(n)]
    else
      var s := DecimalString(n / 10) + [DigitChar(n % 10)];
      assert s[..|s| - 1] == DecimalString(n / 10);
      s
  }

  /** The value of a string of decimal digits. */
  function ParseDecimal(s: string): nat
    requires AllDigits(s)
    decreases |s|
  {
    if s == [] then 0 else ParseDecimal(s[..|s| - 1]) * 10 + DigitValue(s[|s| - 1])
  }

  /** Printing a number and reading it back gives the number. */
  lemma {:induction false} ParseDecimalString(n: nat)
    ensures ParseDecimal(DecimalString(n)) == n
    decreases n
  {
    var s := DecimalString(n);
    if n >= 10 {
      ParseDecimalString(n / 10);
      assert s[..|s| - 1] == DecimalString(n / 10);
    }
  }

  /** A digit string without a leading zero, as `${n}` prints one. */
  predicate Canonical(s: string) {
    |s| >= 1 && AllDigits(s) && (s[0] == '0' ==> |s| == 1)
  }

  /** Reading a canonical digit string and printing the value gives the string back. */
  lemma {:induction false} DecimalStringParse(s: string)
    requires Canonical(s)
    ensures DecimalString(ParseDecimal(s)) == s
    decreases |s|
  {
    var n := ParseDecimal(s);
    if |s| == 1 {
      assert s[..0] == [];
    } else {
      var front := s[..|s| - 1];
      assert front[0] == s[0];
      DecimalStringParse(front);
      LeadingDigitIsPositive(front);
      assert n / 10 == ParseDecimal(front) && n % 10 == DigitValue(s[|s| - 1]);
      assert s == front + [s[|s| - 1]];
    }
  }

  /** A canonical string of two or more digits stands for at least 10. */
  lemma {:induction false} LeadingDigitIsPositive(s: string)
    requires Canonical(s) && s[0] != '0'
    ensures ParseDecimal(s) >= 1
    decreases |s|
  {
    if |s| > 1 {
      var front := s[..|s| - 1];
      assert front[0] == s[0];
      LeadingDigitIsPositive(front);
    } else {
      assert s[..0] == [];
    }
  }

  /**
   * `s.padStart(len, c)`: `c` repeated in front of `s` up to length `len`;
   * a string already that long is unchanged.
   */
  function PadStart(s: string, len: nat, c: char): (r: string)
    ensures |r| == if |s| >= len then |s| else len
    decreases len - |s|
  {
    if |s| >= len then s else PadStart([c] + s, len, c)
  }

  /** The padded string ends with `s` and has only `c` in front of it. */
  lemma {:induction false} PadStartPads(s: string, len: nat, c: char)
    ensures var r := PadStart(s, len, c);
      r[|r| - |s|..] == s && forall i :: 0 <= i < |r| - |s| ==> r[i] == c
    decreases len - |s|
  {
    if |s| < len {
      var r := PadStart(s, len, c);
      PadStartPads([c] + s, len, c);
      assert r[|r| - |s| - 1..] == [c] + s;
      assert r[|r| - |s|..] == r[|r| - |s| - 1..][1..];
    }
  }

  /** The text `M:SS.d` for whole minutes, seconds of the minute and tenths. */
  function TimeText(minutes: nat, seconds: nat, tenths: nat): string {
    DecimalString(minutes) + ":" + PadStart(DecimalString(seconds), 2, '0') + "." + DecimalString(tenths)
  }

  /**
   * tetris.js `leaderboard.formatTime`: whole minutes, then the seconds of
   * the minute padded to two digits, then the tenths of the second.
   */
  function FormatTime(ms: nat): string {
    var totalSeconds := ms / 1000;
    var minutes := totalSeconds / 60;
    var seconds := totalSeconds % 60;
    var deciseconds := (ms % 1000) / 100;
    TimeText(minutes, seconds, deciseconds)
  }

  /** `M:SS.d`: one or more digits, a colon, two digits, a dot, one digit. */
  predicate IsTimeString(s: string) {
    |s| >= 6 && AllDigits(s[..|s| - 5]) && s[|s| - 5] == ':' &&
    IsDigit(s[|s| - 4]) && IsDigit(s[|s| - 3]) && s[|s| - 2] == '.' && IsDigit(s[|s| - 1])
  }

  /** The two-digit seconds field of a `M:SS.d` string. */
  function SecondsField(s: string): nat
    requires IsTimeString(s)
  {
    DigitValue(s[|s| - 4]) * 10 + DigitValue(s[|s| - 3])
  }

  /** The time a `M:SS.d` string stands for, in milliseconds. */
  function ParseTime(s: string): nat
    requires IsTimeString(s)
  {
    ParseDecimal(s[..|s| - 5]) * 60000 + SecondsField(s) * 1000 + DigitValue(s[|s| - 1]) * 100
  }

  /** A number below 100 padded to two digits reads back as itself. */
  lemma PaddedTwoDigits(n: nat)
    requires n < 100
    ensures var p := PadStart(DecimalString(n), 2, '0');
      |p| == 2 && IsDigit(p[0]) && IsDigit(p[1]) && DigitValue(p[0]) * 10 + DigitValue(p[1]) == n
  {
    var q := DecimalString(n);
    if n < 10 {
      assert PadStart(q, 2, '0') == ['0'] + q;
    } else {
      assert q == DecimalString(n / 10) + [DigitChar(n % 10)];
    }
  }

  /** Where the fields sit in `m:pp.d`, and that it has the `M:SS.d` shape. */
  lemma TextLayout(m: string, p: string, d: string)
    requires |m| >= 1 && AllDigits(m) && |p| == 2 && IsDigit(p[0]) && IsDigit(p[1]) && |d| == 1 && IsDigit(d[0])
    ensures var s := m + ":" + p + "." + d;
      IsTimeString(s) && s[..|s| - 5] == m &&
      s[|s| - 4] == p[0] && s[|s| - 3] == p[1] && s[|s| - 1] == d[0]
  {
    var s := m + ":" + p + "." + d;
    assert s == m + (":" + p + "." + d);
    assert s[..|s| - 5] == m;
  }

  /** The three fields of a time text, read back. */
  lemma TimeTextFields(minutes: nat, seconds: nat, tenths: nat)
    requires seconds < 100 && tenths < 10
    ensures var s := TimeText(minutes, seconds, tenths);
      IsTimeString(s) && s[..|s| - 5] == DecimalString(minutes) &&
      SecondsField(s) == seconds && DigitValue(s[|s| - 1]) == tenths
  {
    var m, p, d := DecimalString(minutes), PadStart(DecimalString(seconds), 2, '0'), DecimalString(tenths);
    PaddedTwoDigits(seconds);
    TextLayout(m, p, d);
  }

  /** A time text reads back as the milliseconds of its fields. */
  lemma ParseTimeText(minutes: nat, seconds: nat, tenths: nat)
    requires seconds < 100 && tenths < 10
    ensures IsTimeString(TimeText(minutes, seconds, tenths))
    ensures ParseTime(TimeText(minutes, seconds, tenths)) == minutes * 60000 + seconds * 1000 + tenths * 100
  {
    TimeTextFields(minutes, seconds, tenths);
    ParseDecimalString(minutes);
  }

  /** Splitting milliseconds into minutes, seconds of the minute, tenths and the rest. */
  lemma TimeDecomposition(ms: nat)
    ensures ms / 1000 / 60 * 60000 + ms / 1000 % 60 * 1000 + ms % 1000 / 100 * 100 == ms - ms % 100
  {
    var t := ms / 1000;
    assert ms == t * 1000 + ms % 1000;
    assert t == t / 60 * 60 + t % 60;
    var r := ms % 1000;
    assert r == r / 100 * 100 + r % 100;
    assert ms % 100 == r % 100 by {
      assert ms == t * 10 * 100 + r;
    }
  }

  /** Reading a formatted time gives the time rounded down to a tenth of a second. */
  lemma ParseFormatTime(ms: nat)
    ensures IsCanonicalTime(FormatTime(ms)) && ParseTime(FormatTime(ms)) == ms - ms % 100
  {
    var minutes, seconds, tenths := ms / 1000 / 60, ms / 1000 % 60, ms % 1000 / 100;
    assert FormatTime(ms) == TimeText(minutes, seconds, tenths);
    ParseTimeText(minutes, seconds, tenths);
    TimeTextFields(minutes, seconds, tenths);
    TimeDecomposition(ms);
  }

  /** Minutes, seconds below 60 and tenths below 10, put together and taken apart. */
  lemma RecomposeTime(minutes: nat, seconds: nat, tenths: nat)
    requires seconds < 60 && tenths < 10
    ensures var ms := minutes * 60000 + seconds * 1000 + tenths * 100;
      ms / 1000 / 60 == minutes && ms / 1000 % 60 == seconds && ms % 1000 / 100 == tenths
  {
    var ms := minutes * 60000 + seconds * 1000 + tenths * 100;
    assert ms / 1000 == minutes * 60 + seconds;
    assert ms % 1000 == tenths * 100;
  }

  /** A formatted time: canonical minutes, seconds below 60. */
  predicate IsCanonicalTime(s: string) {
    IsTimeString(s) && Canonical(s[..|s| - 5]) && DigitValue(s[|s| - 4]) < 6
  }

  /** A `M:SS.d` string is its minutes, a colon, its two seconds digits, a dot and its tenths digit. */
  lemma TimeStringParts(s: string)
    requires IsTimeString(s)
    ensures s == s[..|s| - 5] + ":" + [s[|s| - 4], s[|s| - 3]] + "." + [s[|s| - 1]]
  {
    var n := |s|;
    assert s[n - 5..] == [s[n - 5], s[n - 4], s[n - 3], s[n - 2], s[n - 1]];
    assert s == s[..n - 5] + s[n - 5..];
  }

  /** A digit is the character of its own value. */
  lemma DigitOfValue(c: char)
    requires IsDigit(c)
    ensures DigitChar(DigitValue(c)) == c
  {
  }

  /** A canonical time string is the text of its own fields. */
  lemma CanonicalTimeText(s: string)
    requires IsCanonicalTime(s)
    ensures s == TimeText(ParseDecimal(s[..|s| - 5]), SecondsField(s), DigitValue(s[|s| - 1]))
  {
    var n := |s|;
    var minutes, seconds, tenths := ParseDecimal(s[..n - 5]), SecondsField(s), DigitValue(s[n - 1]);
    TimeStringParts(s);
    DecimalStringParse(s[..n - 5]);
    var p := PadStart(DecimalString(seconds), 2, '0');
    PaddedTwoDigits(seconds);
    assert DigitValue(p[0]) == DigitValue(s[n - 4]) && DigitValue(p[1]) == DigitValue(s[n - 3]);
    DigitOfValue(p[0]);
    DigitOfValue(p[1]);
    DigitOfValue(s[n - 4]);
    DigitOfValue(s[n - 3]);
    assert p == [s[n - 4], s[n - 3]];
    DigitOfValue(s[n - 1]);
    assert DecimalString(tenths) == [s[n - 1]];
  }

  /** Formatting the time a canonical `M:SS.d` string stands for gives the string back. */
  lemma FormatParseTime(s: string)
    requires IsCanonicalTime(s)
    ensures FormatTime(ParseTime(s)) == s
  {
    var n := |s|;
    RecomposeTime(ParseDecimal(s[..n - 5]), SecondsField(s), DigitValue(s[n - 1]));
    CanonicalTimeText(s);
  }

  // ------------------------------------------------------------- top ten

  /** One leaderboard entry: `{ name, time_ms }`. */
  datatype Record = Record(name: string, timeMs: int)

  const DefaultName: string := "Anonymous Cat"
  const BoardSize: nat := 10

  /** `playerName || 'Anonymous Cat'`: the empty name falls back to the default. */
  function Named(playerName: string): (name: string)
    ensures name != []
    ensures playerName != [] ==> name == playerName
  {
    if playerName == [] then DefaultName else playerName
  }

  predicate SortedByTime(s: seq<Record>) {
    forall i, j :: 0 <= i < j < |s| ==> s[i].timeMs <= s[j].timeMs
  }

  /**
   * Where a record with time `t` goes in `s`: after every record whose
   * time is at most `t`, searching from the back.
   */
  function Slot(s: seq<Record>, t: int): (p: nat)
    ensures p <= |s| && forall i :: p <= i < |s| ==> s[i].timeMs > t
    ensures p > 0 ==> s[p - 1].timeMs <= t
    decreases |s|
  {
    if s == [] || s[|s| - 1].timeMs <= t then |s| else Slot(s[..|s| - 1], t)
  }

  function Insert(s: seq<Record>, x: Record): seq<Record> {
    var p := Slot(s, x.timeMs);
    s[..p] + [x] + s[p..]
  }

  /**
   * `records.sort((a, b) => a.time_ms - b.time_ms)`: a stable sort by time,
   * written as insertion sort (every stable sort gives the same order).
   */
  function SortByTime(s: seq<Record>): seq<Record>
    decreases |s|
  {
    if s == [] then [] else Insert(SortByTime(s[..|s| - 1]), s[|s| - 1])
  }

  /** The records with time `t`, in order. */
  function Ties(s: seq<Record>, t: int): seq<Record>
    decreases |s|
  {
    if s == [] then [] else Ties(s[..|s| - 1], t) + (if s[|s| - 1].timeMs == t then [s[|s| - 1]] else [])
  }

  lemma {:induction false} TiesAppend(a: seq<Record>, b: seq<Record>, t: int)
    ensures Ties(a + b, t) == Ties(a, t) + Ties(b, t)
    decreases |b|
  {
    if b != [] {
      var ab := a + b;
      assert ab[..|ab| - 1] == a + b[..|b| - 1];
      TiesAppend(a, b[..|b| - 1], t);
    } else {
      assert a + b == a;
    }
  }

  lemma {:induction false} TiesNone(s: seq<Record>, t: int)
    requires forall i :: 0 <= i < |s| ==> s[i].timeMs != t
    ensures Ties(s, t) == []
    decreases |s|
  {
    if s != [] {
      TiesNone(s[..|s| - 1], t);
    }
  }

  /**
   * Inserting into a sorted sequence keeps it sorted, adds exactly `x`, and
   * puts `x` after every record with the same time.
   */
  lemma InsertProperties(s: seq<Record>, x: Record, t: int)
    requires SortedByTime(s)
    ensures var r := Insert(s, x);
      SortedByTime(r) && multiset(r) == multiset(s) + multiset{x} &&
      Ties(r, t) == Ties(s, t) + (if x.timeMs == t then [x] else [])
  {
    InsertSorted(s, x);
    var p := Slot(s, x.timeMs);
    assert s == s[..p] + s[p..];
    InsertTies(s, x, t);
  }

  lemma InsertSorted(s: seq<Record>, x: Record)
    requires SortedByTime(s)
    ensures SortedByTime(Insert(s, x))
  {
    var p := Slot(s, x.timeMs);
    var r := Insert(s, x);
    forall i, j | 0 <= i < j < |r| ensures r[i].timeMs <= r[j].timeMs {
      if i < p && j > p {
        assert r[i] == s[i] && r[j] == s[j - 1];
      }
    }
  }

  lemma InsertTies(s: seq<Record>, x: Record, t: int)
    ensures Ties(Insert(s, x), t) == Ties(s, t) + (if x.timeMs == t then [x] else [])
  {
    var p := Slot(s, x.timeMs);
    var a, b := s[..p], s[p..];
    assert s == a + b;
    assert Insert(s, x) == a + [x] + b;
    forall i | 0 <= i < |b| ensures b[i].timeMs > x.timeMs {
      assert b[i] == s[p + i];
    }
    TiesInsertAt(a, x, b, t);
  }

  /** The ties of `a + [x] + b` when every record of `b` is slower than `x`. */
  lemma TiesInsertAt(a: seq<Record>, x: Record, b: seq<Record>, t: int)
    requires forall i :: 0 <= i < |b| ==> b[i].timeMs > x.timeMs
    ensures Ties(a + [x] + b, t) == Ties(a + b, t) + (if x.timeMs == t then [x] else [])
  {
    assert a + [x] + b == a + ([x] + b);
    TiesAppend(a, [x] + b, t);
    TiesCons(x, b, t);
    TiesAppend(a, b, t);
    if x.timeMs == t {
      TiesNone(b, t);
      assert Ties([x] + b, t) == [x];
      assert Ties(a + b, t) == Ties(a, t);
    } else {
      assert Ties([x] + b, t) == Ties(b, t);
    }
  }

  lemma TiesCons(x: Record, b: seq<Record>, t: int)
    ensures Ties([x] + b, t) == (if x.timeMs == t then [x] else []) + Ties(b, t)
  {
    TiesAppend([x], b, t);
    assert [x][..0] == [];
  }

  /** The sort gives a sorted permutation that keeps records with equal times in their order. */
  lemma {:induction false} SortByTimeProperties(s: seq<Record>, t: int)
    ensures var r := SortByTime(s);
      SortedByTime(r) && multiset(r) == multiset(s) && Ties(r, t) == Ties(s, t)
    decreases |s|
  {
    if s != [] {
      var front, last := s[..|s| - 1], s[|s| - 1];
      SortByTimeProperties(front, t);
      InsertProperties(SortByTime(front), last, t);
      assert s == front + [last];
    }
  }

  /** Sorting a sorted sequence changes nothing. */
  lemma {:induction false} SortSorted(s: seq<Record>)
    requires SortedByTime(s)
    ensures SortByTime(s) == s
    decreases |s|
  {
    if s != [] {
      var front := s[..|s| - 1];
      SortSorted(front);
      assert Slot(front, s[|s| - 1].timeMs) == |front|;
      assert front + [s[|s| - 1]] == s;
    }
  }

  lemma SortedAt(s: seq<Record>, i: int, j: int)
    requires SortedByTime(s) && 0 <= i <= j < |s|
    ensures s[i].timeMs <= s[j].timeMs
  {
    if i < j {
      assert s[i].timeMs <= s[j].timeMs;
    }
  }

  /** The first `k` records, as `splice(k)` leaves them. */
  function Take(s: seq<Record>, k: nat): seq<Record> {
    if |s| <= k then s else s[..k]
  }

  /**
   * tetris.js `leaderboard.add`, local fallback: push the new record, sort by
   * time, keep the ten fastest.
   */
  function AddRecord(records: seq<Record>, timeMs: int, playerName: string): (top: seq<Record>)
    ensures |top| == if |records| + 1 < BoardSize then |records| + 1 else BoardSize
    ensures SortedByTime(top)
    ensures multiset(top) <= multiset(records + [Record(Named(playerName), timeMs)])
    ensures forall a, b :: a in top && b in multiset(records + [Record(Named(playerName), timeMs)]) - multiset(top) ==>
      a.timeMs <= b.timeMs
  {
    var all := records + [Record(Named(playerName), timeMs)];
    var sorted := SortByTime(all);
    SortByTimeProperties(all, timeMs);
    TakeKeepsFastest(sorted, BoardSize);
    Take(sorted, BoardSize)
  }

  /** Taking a prefix of a sorted sequence keeps it sorted and keeps the fastest. */
  lemma TakeKeepsFastest(s: seq<Record>, k: nat)
    requires SortedByTime(s)
    ensures var top := Take(s, k);
      SortedByTime(top) && multiset(top) <= multiset(s) &&
      forall a, b :: a in top && b in multiset(s) - multiset(top) ==> a.timeMs <= b.timeMs
  {
    if |s| > k {
      var front, back := s[..k], s[k..];
      assert s == front + back;
      DroppedAreTheRest(front, back);
      SortedSplit(s, k);
    }
  }

  lemma DroppedAreTheRest(front: seq<Record>, back: seq<Record>)
    ensures multiset(front) <= multiset(front + back)
    ensures multiset(front + back) - multiset(front) == multiset(back)
  {
  }

  /** In a sorted sequence each record of the first `k` is at most as slow as each one after. */
  lemma SortedSplit(s: seq<Record>, k: nat)
    requires SortedByTime(s) && k <= |s|
    ensures forall a, b :: a in s[..k] && b in s[k..] ==> a.timeMs <= b.timeMs
  {
    forall a, b | a in s[..k] && b in s[k..] ensures a.timeMs <= b.timeMs {
      var i :| 0 <= i < k && s[..k][i] == a;
      var j :| 0 <= j < |s| - k && s[k..][j] == b;
      assert a == s[i] && b == s[k + j];
    }
  }

  /** Adding a record to a sorted sequence and sorting is inserting it at its slot. */
  lemma SortAppended(records: seq<Record>, x: Record)
    requires SortedByTime(records)
    ensures SortByTime(records + [x]) == Insert(records, x)
  {
    var all := records + [x];
    SortSorted(records);
    assert all[..|all| - 1] == records && all[|all| - 1] == x;
  }

  /** The first `k` of `s` with `x` inserted at `p`. */
  lemma TakeInserted(s: seq<Record>, x: Record, p: nat, k: nat)
    requires p <= |s|
    ensures p < k ==> Take(s[..p] + [x] + s[p..], k)[p] == x
    ensures p >= k ==> Take(s[..p] + [x] + s[p..], k) == s[..k]
  {
    var r := s[..p] + [x] + s[p..];
    if p >= k {
      assert r[..k] == s[..k];
    }
  }

  /** On a sorted sequence the slot of `t` is below `k` exactly when fewer than `k` records or a slower `k`-th one. */
  lemma SlotBelow(s: seq<Record>, t: int, k: nat)
    requires SortedByTime(s) && k >= 1
    ensures Slot(s, t) < k <==> |s| < k || t < s[k - 1].timeMs
  {
    var p := Slot(s, t);
    if p >= k {
      SortedAt(s, k - 1, p - 1);
    }
  }

  /**
   * On a sorted board a new time lands after every record at most as fast:
   * it is kept exactly when the board has room or it beats the tenth time
   * strictly; otherwise the board is its old first ten.
   */
  lemma AddRecordEnters(records: seq<Record>, timeMs: int, playerName: string)
    requires SortedByTime(records)
    ensures var x := Record(Named(playerName), timeMs);
      var top := AddRecord(records, timeMs, playerName);
      var p := Slot(records, timeMs);
      (p < BoardSize ==> top[p] == x) &&
      (p >= BoardSize ==> top == records[..BoardSize]) &&
      (p < BoardSize <==> |records| < BoardSize || timeMs < records[BoardSize - 1].timeMs)
  {
    var x := Record(Named(playerName), timeMs);
    SortAppended(records, x);
    TakeInserted(records, x, Slot(records, timeMs), BoardSize);
    SlotBelow(records, timeMs, BoardSize);
  }
}
