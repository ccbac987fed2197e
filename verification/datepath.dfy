/** The shape of the path `todayNode` looks up or creates in lib/workspace.ts:
    "Workspace/Calendar/<year>/Week <NN>/<day>", and its find-or-create over
    the node store's path index. The day segment is a parameter. */
module DatePath {
  import opened Types
  import opened Calendar

  function DigitChar(d: int): (c: char)
    requires 0 <= d <= 9
    ensures '0' <= c <= '9' && c as int - 48 == d
  {
    (48 + d) as char
  }

  /** `String(n)` for a natural number: its decimal digits, no leading zero. */
  function NatToString(n: nat): (s: string)
    ensures 1 <= |s|
    ensures forall i :: 0 <= i < |s| ==> '0' <= s[i] <= '9'
    ensures n < 10 <==> |s| == 1
    ensures 10 <= n < 100 <==> |s| == 2
    ensures (s[0] == '0') == (n == 0)
    decreases n
  {
    if n < 10 then [DigitChar(n)]
    else NatToString(n / 10) + [DigitChar(n % 10)]
  }

  /** A template literal of an integer: a minus sign for a negative number,
      then the digits of its magnitude. */
  function IntToString(i: int): string {
    if i < 0 then "-" + NatToString(-i) else NatToString(i)
  }

  /** The number a non-empty string of decimal digits denotes, leading zeros
      allowed; None for anything else. */
  function ParseNat(s: string): Option<nat>
    decreases |s|
  {
    if |s| == 0 || !('0' <= s[|s| - 1] <= '9') then None
    else
      var last := s[|s| - 1] as int - 48;
      if |s| == 1 then Some(last)
      else match ParseNat(s[..|s| - 1])
        case None => None
        case Some(v) => Some(10 * v + last)
  }

  /** Decimal rendering is undone by parsing. */
  lemma {:induction false} ParseNatToString(n: nat)
    ensures ParseNat(NatToString(n)) == Some(n)
    decreases n
  {
    if n >= 10 {
      var s := NatToString(n);
      assert s[..|s| - 1] == NatToString(n / 10);
      ParseNatToString(n / 10);
    }
  }

  /** The rendering of an integer starts with a minus sign exactly when it
      is negative, and the rest is the magnitude's digits. */
  lemma IntToStringSign(i: int)
    ensures |IntToString(i)| >= 1
    ensures (IntToString(i)[0] == '-') == (i < 0)
    ensures i < 0 ==> IntToString(i)[1..] == NatToString(-i)
  {
    if i >= 0 {
      assert '0' <= NatToString(i)[0] <= '9';
    } else {
      assert ("-" + NatToString(-i))[1..] == NatToString(-i);
    }
  }

  /** Distinct years get distinct year segments. */
  lemma IntToStringInjective(a: int, b: int)
    requires IntToString(a) == IntToString(b)
    ensures a == b
  {
    IntToStringSign(a);
    IntToStringSign(b);
    if a < 0 {
      assert b < 0 && NatToString(-a) == NatToString(-b);
      NatToStringInjective(-a, -b);
    } else {
      assert b >= 0 && NatToString(a) == NatToString(b);
      NatToStringInjective(a, b);
    }
  }

  lemma NatToStringInjective(a: nat, b: nat)
    requires NatToString(a) == NatToString(b)
    ensures a == b
  {
    ParseNatToString(a);
    ParseNatToString(b);
  }

  /** A leading zero does not change the number a digit string denotes. */
  lemma {:induction false} ParseNatLeadingZero(t: string)
    requires 1 <= |t|
    ensures ParseNat(['0'] + t) == ParseNat(t)
    decreases |t|
  {
    var s := ['0'] + t;
    if |t| > 1 {
      assert s[..|s| - 1] == ['0'] + t[..|t| - 1];
      ParseNatLeadingZero(t[..|t| - 1]);
    } else {
      assert s[..|s| - 1] == ['0'];
    }
  }

  /** `s.padStart(len, c)` with a one-character pad: s itself when it is
      already long enough, otherwise s behind as many c as make it len long. */
  function PadStart(s: string, len: nat, c: char): (r: string)
    ensures |r| == if |s| >= len then |s| else len
    ensures r[|r| - |s|..] == s
    ensures forall i :: 0 <= i < |r| - |s| ==> r[i] == c
  {
    if |s| >= len then s else seq(len - |s|, _ => c) + s
  }

  /** The week segment: "Week " and the week number, zero-padded to two digits. */
  function WeekSegment(w: nat): string {
    "Week " + PadStart(NatToString(w), 2, '0')
  }

  /** Reads a week segment back: the number after "Week ". */
  function ParseWeekSegment(s: string): Option<nat> {
    if |s| > 5 && s[..5] == "Week " then ParseNat(s[5..]) else None
  }

  /** Every week number survives its padded rendering, and weeks 1..53 take
      exactly two digits. */
  lemma WeekSegmentRoundTrip(w: nat)
    ensures ParseWeekSegment(WeekSegment(w)) == Some(w)
    ensures 1 <= w <= 53 ==> |WeekSegment(w)| == 7
  {
    var digits := NatToString(w);
    var s := WeekSegment(w);
    assert s[..5] == "Week ";
    assert s[5..] == PadStart(digits, 2, '0');
    ParseNatToString(w);
    if |digits| < 2 {
      assert PadStart(digits, 2, '0') == ['0'] + digits;
      ParseNatLeadingZero(digits);
    } else {
      assert PadStart(digits, 2, '0') == digits;
    }
  }

  /** `["Workspace", "Calendar", yearNode, weekNode, dayNode]` for a year,
      a week number and a day segment. */
  function CalendarPath(year: int, week: nat, day: string): (p: seq<string>)
    ensures |p| == 5 && p[0] == "Workspace" && p[1] == "Calendar" && p[4] == day
    ensures p[2] == IntToString(year)
    ensures ParseWeekSegment(p[3]) == Some(week)
    ensures 1 <= week <= 53 ==> |p[3]| == 7
  {
    var y, w := IntToString(year), WeekSegment(week);
    WeekSegmentRoundTrip(week);
    ["Workspace", "Calendar", y, w, day]
  }

  /** The path of the calendar node for date d: its nominal year (the
      source's `getFullYear()`) and its ISO 8601 week number. */
  function TodayPath(d: Date, day: string): (p: seq<string>)
    requires ValidDate(d)
    ensures |p| == 5 && p[0] == "Workspace" && p[1] == "Calendar" && p[4] == day
    ensures p[2] == IntToString(d.year)
    ensures ParseWeekSegment(p[3]) == Some(WeekOfYear(d)) && |p[3]| == 7
  {
    var w := WeekOfYear(d);
    CalendarPath(d.year, w, day)
  }

  /** `segments.join("/")`: when no segment holds a slash, splitting the
      joined path at its slashes gives the segments back. */
  function JoinPath(segs: seq<string>): (r: string)
    ensures |segs| > 0 && (forall k :: 0 <= k < |segs| ==> '/' !in segs[k]) ==> Split(r) == segs
  {
    if |segs| == 0 then ""
    else if |segs| == 1 then
      SplitSegment(segs[0], "");
      assert segs[0] + "" == segs[0];
      segs[0]
    else
      var rest := JoinPath(segs[1..]);
      SplitSegment(segs[0], "/" + rest);
      assert ("/" + rest)[0] == '/' && ("/" + rest)[1..] == rest;
      assert Split("/" + rest) == [""] + Split(rest);
      assert segs[0] + "/" + rest == segs[0] + ("/" + rest);
      assert segs[0] + "" == segs[0] && [segs[0]] + segs[1..] == segs;
      segs[0] + "/" + rest
  }

  /** The path at its slashes, as `path.split("/")`. */
  function Split(s: string): (r: seq<string>)
    ensures |r| > 0
  {
    if |s| == 0 then [""]
    else
      var rest := Split(s[1..]);
      if s[0] == '/' then [""] + rest
      else [[s[0]] + rest[0]] + rest[1..]
  }

  /** A slash-free prefix joins the first piece of what follows it. */
  lemma {:induction false} SplitSegment(a: string, t: string)
    ensures '/' !in a ==> Split(a + t) == [a + Split(t)[0]] + Split(t)[1..]
  {
    if |a| > 0 && '/' !in a {
      assert (a + t)[1..] == a[1..] + t;
      assert (a + t)[0] == a[0] != '/';
      assert '/' !in a[1..];
      SplitSegment(a[1..], t);
      var r := Split(a[1..] + t);
      assert Split(a + t) == [[a[0]] + r[0]] + r[1..];
      assert [a[0]] + (a[1..] + Split(t)[0]) == a + Split(t)[0];
    } else if |a| == 0 {
      var r := Split(t);
      assert a + t == t && a + r[0] == r[0];
      assert [r[0]] + r[1..] == r;
    }
  }

  /** The node store's path index: full path to node ID. */
  type PathIndex = map<string, NodeId>

  /** `find(path)`, then `new(path)` if nothing is there: the node at the
      path if the store has one, otherwise a new node (with the new ID the
      store hands out) entered at the path. Other paths are untouched. */
  function FindOrCreate(store: PathIndex, path: string, newId: NodeId): (r: (PathIndex, NodeId))
    ensures path in r.0 && r.0[path] == r.1
    ensures r.0.Keys == store.Keys + {path}
    ensures forall k :: k in store && k != path ==> r.0[k] == store[k]
    ensures path in store ==> r.0 == store && r.1 == store[path]
    ensures path !in store ==> r.1 == newId
  {
    if path in store then (store, store[path])
    else (store[path := newId], newId)
  }

  /** `todayNode()`: find-or-create at the joined path of date d. The node
      returned is the one the store holds at that path afterwards; an
      existing node is reused without any change, otherwise the new ID is
      entered at the path and nothing else. */
  function TodayNode(store: PathIndex, d: Date, day: string, newId: NodeId): (r: (PathIndex, NodeId))
    requires ValidDate(d)
    ensures var key := JoinPath(TodayPath(d, day));
      && key in r.0 && r.0[key] == r.1
      && (key in store ==> r == (store, store[key]))
      && (key !in store ==> r.0 == store[key := newId] && r.1 == newId)
  {
    FindOrCreate(store, JoinPath(TodayPath(d, day)), newId)
  }

  /** Resolving the same date twice yields the same node and creates nothing
      the second time. */
  lemma TodayNodeIdempotent(store: PathIndex, d: Date, day: string, f1: NodeId, f2: NodeId)
    requires ValidDate(d)
    ensures var (s1, n1) := TodayNode(store, d, day, f1);
      TodayNode(s1, d, day, f2) == (s1, n1)
  {
    var key := JoinPath(TodayPath(d, day));
    var (s1, n1) := FindOrCreate(store, key, f1);
    assert FindOrCreate(s1, key, f2) == (s1, n1);
  }

  /** The year segment is the nominal year even where the week belongs to the
      next ISO year: 2024-12-30 files under "2024/Week 01". */
  lemma LateDecemberPath(day: string)
    ensures ValidDate(Date(2024, 12, 30))
    ensures TodayPath(Date(2024, 12, 30), day) == ["Workspace", "Calendar", "2024", "Week 01", day]
  {
    LateDecemberRollsOver();
    assert IntToString(2024) == "2024" by {
      assert NatToString(2) == "2";
      assert NatToString(20) == "20";
      assert NatToString(202) == "202";
    }
    assert WeekSegment(1) == "Week 01" by {
      assert NatToString(1) == "1";
      assert PadStart("1", 2, '0') == "01";
    }
  }

  /** ... and where it belongs to the previous ISO year: 2021-01-01 files
      under "2021/Week 53". */
  lemma EarlyJanuaryPath(day: string)
    ensures ValidDate(Date(2021, 1, 1))
    ensures TodayPath(Date(2021, 1, 1), day) == ["Workspace", "Calendar", "2021", "Week 53", day]
  {
    EarlyJanuaryRollsBack();
    assert IntToString(2021) == "2021" by {
      assert NatToString(2) == "2";
      assert NatToString(20) == "20";
      assert NatToString(202) == "202";
    }
    assert WeekSegment(53) == "Week 53" by {
      assert NatToString(5) == "5";
      assert NatToString(53) == "53";
    }
  }
}
