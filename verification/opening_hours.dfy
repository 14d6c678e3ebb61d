/**
 * The opening-hours compiler: a per-day open/close map (or the 24/7 flag) becomes a
 * list of OpeningHoursSpecification entries, one per maximal run of consecutive days
 * (Monday to Sunday, no wrap-around) that share the same `open-close` signature.
 */
module OpeningHours {
  import opened Wrappers
  import opened Text

  datatype Day = Monday | Tuesday | Wednesday | Thursday | Friday | Saturday | Sunday

  /** The canonical day order the compiler walks. */
  const Week: seq<Day> := [Monday, Tuesday, Wednesday, Thursday, Friday, Saturday, Sunday]

  function Index(d: Day): (i: nat)
    ensures i < 7 && Week[i] == d
  {
    match d
    case Monday => 0
    case Tuesday => 1
    case Wednesday => 2
    case Thursday => 3
    case Friday => 4
    case Saturday => 5
    case Sunday => 6
  }

  lemma IndexOfWeek(j: nat)
    requires j < 7
    ensures Index(Week[j]) == j
  {
  }

  lemma WeekSliceExtend(a: nat, b: nat)
    requires a <= b < 7
    ensures Week[a..b + 1] == Week[a..b] + [Week[b]]
  {
  }

  /** The key the form uses for a day in its `openingHours` map. */
  function Key(d: Day): string {
    match d
    case Monday => "monday"
    case Tuesday => "tuesday"
    case Wednesday => "wednesday"
    case Thursday => "thursday"
    case Friday => "friday"
    case Saturday => "saturday"
    case Sunday => "sunday"
  }

  /** The Schema.org `dayOfWeek` label for a day. */
  function Label(d: Day): string {
    match d
    case Monday => "Monday"
    case Tuesday => "Tuesday"
    case Wednesday => "Wednesday"
    case Thursday => "Thursday"
    case Friday => "Friday"
    case Saturday => "Saturday"
    case Sunday => "Sunday"
  }

  /** One day's entry of the form's `openingHours` map. */
  datatype Hours = Hours(open: string, close: string)

  /** Seven slots, Monday first; `None` for a day the map has no entry for. */
  type Slots = s: seq<Option<Hours>> | |s| == 7
    witness [None, None, None, None, None, None, None]

  /** Reads the seven day keys out of the map; every other key is ignored. */
  function SlotsOf(m: map<string, Hours>): (slots: Slots)
    ensures forall j :: 0 <= j < 7 ==> (slots[j].Some? <==> Key(Week[j]) in m)
    ensures forall j :: 0 <= j < 7 && Key(Week[j]) in m ==> slots[j] == Some(m[Key(Week[j])])
  {
    seq(7, j requires 0 <= j < 7 => if Key(Week[j]) in m then Some(m[Key(Week[j])]) else None)
  }

  /** The string the compiler compares days by: `open + "-" + close`. */
  function Signature(h: Hours): string {
    h.open + "-" + h.close
  }

  function SigAt(slots: Slots, j: nat): Option<string>
    requires j < 7
  {
    match slots[j]
    case Some(h) => Some(Signature(h))
    case None => None
  }

  /** A group of days sharing the seed day's `opens`/`closes` times. */
  datatype Group = Group(days: seq<Day>, opens: string, closes: string)

  /** Index of the group's first day (0 for a group with no day). */
  function Start(g: Group): nat {
    if g.days == [] then 0 else Index(g.days[0])
  }

  /** One past the index of the group's last day, if its days are consecutive. */
  function End(g: Group): nat {
    Start(g) + |g.days|
  }

  /** `g` is a run of consecutive days, seeded by its first day's hours, whose days all
      share the seed's signature and which cannot be extended to the right. */
  predicate IsRun(slots: Slots, g: Group) {
    var a := Start(g);
    var b := End(g);
    && |g.days| > 0 && b <= 7 && g.days == Week[a..b]
    && slots[a] == Some(Hours(g.opens, g.closes))
    && (forall j :: a <= j < b ==> SigAt(slots, j) == SigAt(slots, a))
    && (b == 7 || SigAt(slots, b) != SigAt(slots, a))
  }

  /** A run that also cannot be extended to the left. */
  predicate IsMaximalRun(slots: Slots, g: Group) {
    IsRun(slots, g) && LeftMaximal(slots, g)
  }

  /** End (exclusive) of the stretch of days from `k` on whose signature is `sig`. */
  function RunEnd(slots: Slots, sig: string, k: nat): (e: nat)
    requires k <= 7
    ensures k <= e <= 7
    ensures forall j :: k <= j < e ==> SigAt(slots, j) == Some(sig)
    ensures e == 7 || SigAt(slots, e) != Some(sig)
    decreases 7 - k
  {
    if k < 7 && SigAt(slots, k) == Some(sig) then RunEnd(slots, sig, k + 1) else k
  }

  /** The groups the Monday-to-Sunday scan emits from day index `i` on: a day with an
      entry seeds a group that swallows the following days of equal signature, and the
      scan resumes after the group. */
  function GroupsFrom(slots: Slots, i: nat): (gs: seq<Group>)
    requires i <= 7
    ensures |gs| <= 7 - i
    decreases 7 - i
  {
    if i == 7 then []
    else
      match slots[i]
      case None => GroupsFrom(slots, i + 1)
      case Some(h) =>
        var e := RunEnd(slots, Signature(h), i + 1);
        [Group(Week[i..e], h.open, h.close)] + GroupsFrom(slots, e)
  }

  /** The compiler's grouping of a day map, as a function of the map. */
  function GroupConsecutive(m: map<string, Hours>): seq<Group> {
    GroupsFrom(SlotsOf(m), 0)
  }

  /** The first group the scan emits from `i` on, when day `i` has an entry, is the
      run that starts at `i`. */
  lemma FirstGroup(slots: Slots, i: nat, h: Hours)
    requires i < 7 && slots[i] == Some(h)
    ensures var e := RunEnd(slots, Signature(h), i + 1);
      && GroupsFrom(slots, i) == [Group(Week[i..e], h.open, h.close)] + GroupsFrom(slots, e)
      && Start(GroupsFrom(slots, i)[0]) == i && End(GroupsFrom(slots, i)[0]) == e
      && IsRun(slots, GroupsFrom(slots, i)[0])
  {
    IndexOfWeek(i);
  }

  /** Day index `j` falls inside one of the groups. */
  predicate Covered(gs: seq<Group>, j: nat) {
    exists k :: 0 <= k < |gs| && Start(gs[k]) <= j < End(gs[k])
  }

  lemma CoveredCons(g: Group, rest: seq<Group>, j: nat)
    ensures Covered([g] + rest, j) <==> (Start(g) <= j < End(g)) || Covered(rest, j)
  {
    var gs := [g] + rest;
    if Covered(rest, j) {
      var k :| 0 <= k < |rest| && Start(rest[k]) <= j < End(rest[k]);
      assert gs[k + 1] == rest[k];
    }
    if Covered(gs, j) && !(Start(g) <= j < End(g)) {
      var k :| 0 <= k < |gs| && Start(gs[k]) <= j < End(gs[k]);
      assert rest[k - 1] == gs[k];
    }
  }

  /** One step of the scan. */
  lemma GroupsFromStep(slots: Slots, i: nat)
    requires i < 7
    ensures slots[i].None? ==> GroupsFrom(slots, i) == GroupsFrom(slots, i + 1)
    ensures slots[i].Some? ==>
      var h := slots[i].value;
      var e := RunEnd(slots, Signature(h), i + 1);
      GroupsFrom(slots, i) == [Group(Week[i..e], h.open, h.close)] + GroupsFrom(slots, e)
  {
  }

  /** The groups come in day order without overlapping. */
  predicate Ordered(gs: seq<Group>) {
    forall k1, k2 :: 0 <= k1 < k2 < |gs| ==> End(gs[k1]) <= Start(gs[k2])
  }

  /** The groups after the first are the groups the scan emits after the first run. */
  lemma GroupsFromTail(slots: Slots, i: nat, h: Hours)
    requires i < 7 && slots[i] == Some(h)
    ensures var gs, rest := GroupsFrom(slots, i), GroupsFrom(slots, RunEnd(slots, Signature(h), i + 1));
      |gs| == |rest| + 1 && forall k :: 1 <= k < |gs| ==> gs[k] == rest[k - 1]
  {
    var e := RunEnd(slots, Signature(h), i + 1);
    GroupsFromStep(slots, i);
    ConsIndex(GroupsFrom(slots, i), Group(Week[i..e], h.open, h.close), GroupsFrom(slots, e));
  }

  lemma ConsIndex(gs: seq<Group>, g: Group, rest: seq<Group>)
    requires gs == [g] + rest
    ensures |gs| == |rest| + 1 && forall k :: 1 <= k < |gs| ==> gs[k] == rest[k - 1]
  {
  }

  /** Every group the scan emits from `i` on is a run. */
  lemma {:induction false} GroupsFromAreRuns(slots: Slots, i: nat)
    requires i <= 7
    ensures forall k :: 0 <= k < |GroupsFrom(slots, i)| ==> IsRun(slots, GroupsFrom(slots, i)[k])
    decreases 7 - i
  {
    if i < 7 {
      match slots[i]
      case None =>
        GroupsFromAreRuns(slots, i + 1);
      case Some(h) =>
        GroupsFromAreRuns(slots, RunEnd(slots, Signature(h), i + 1));
        FirstGroup(slots, i, h);
        GroupsFromTail(slots, i, h);
    }
  }

  /** Groups emitted from `i` on start at or after `i`. */
  lemma {:induction false} GroupsFromStart(slots: Slots, i: nat)
    requires i <= 7
    ensures forall k :: 0 <= k < |GroupsFrom(slots, i)| ==> i <= Start(GroupsFrom(slots, i)[k])
    decreases 7 - i
  {
    if i < 7 {
      match slots[i]
      case None =>
        GroupsFromStart(slots, i + 1);
      case Some(h) =>
        GroupsFromStart(slots, RunEnd(slots, Signature(h), i + 1));
        FirstGroup(slots, i, h);
        GroupsFromTail(slots, i, h);
    }
  }

  /** The groups the scan emits come in day order without overlapping. */
  lemma {:induction false} GroupsFromOrdered(slots: Slots, i: nat)
    requires i <= 7
    ensures Ordered(GroupsFrom(slots, i))
    decreases 7 - i
  {
    if i < 7 {
      match slots[i]
      case None =>
        GroupsFromOrdered(slots, i + 1);
      case Some(h) =>
        var e := RunEnd(slots, Signature(h), i + 1);
        GroupsFromOrdered(slots, e);
        GroupsFromStart(slots, e);
        FirstGroup(slots, i, h);
        GroupsFromTail(slots, i, h);
    }
  }

  /** The groups the scan emits from `i` on cover exactly the days from `i` on that
      have an entry. */
  lemma {:induction false} GroupsFromCover(slots: Slots, i: nat)
    requires i <= 7
    ensures forall j :: i <= j < 7 ==> (slots[j].Some? <==> Covered(GroupsFrom(slots, i), j))
    decreases 7 - i
  {
    if i < 7 {
      var gs := GroupsFrom(slots, i);
      match slots[i]
      case None =>
        assert gs == GroupsFrom(slots, i + 1);
        GroupsFromCover(slots, i + 1);
        GroupsFromStart(slots, i + 1);
        forall j | i <= j < 7
          ensures slots[j].Some? <==> Covered(gs, j)
        {
          if j == i {
            assert forall k :: 0 <= k < |gs| ==> !(Start(gs[k]) <= i < End(gs[k]));
          }
        }
      case Some(h) =>
        var e := RunEnd(slots, Signature(h), i + 1);
        GroupsFromCover(slots, e);
        var g := Group(Week[i..e], h.open, h.close);
        IndexOfWeek(i);
        assert Start(g) == i && End(g) == e;
        var rest := GroupsFrom(slots, e);
        assert gs == [g] + rest;
        forall j | i <= j < 7
          ensures slots[j].Some? <==> Covered(gs, j)
        {
          CoveredCons(g, rest, j);
          if j < e {
            assert SigAt(slots, j).Some?;
          }
        }
    }
  }

  /** A group that cannot be extended to the left. */
  predicate LeftMaximal(slots: Slots, g: Group) {
    Start(g) == 0 || SigAt(slots, Start(g) - 1) != SigAt(slots, Start(g))
  }

  /** The scan never starts a group where the previous day shares its signature. */
  lemma {:induction false} GroupsFromLeftMaximal(slots: Slots, i: nat)
    requires i <= 7
    requires i == 0 || i == 7 || SigAt(slots, i) == None || SigAt(slots, i - 1) != SigAt(slots, i)
    ensures forall k :: 0 <= k < |GroupsFrom(slots, i)| ==> LeftMaximal(slots, GroupsFrom(slots, i)[k])
    decreases 7 - i
  {
    if i < 7 {
      match slots[i]
      case None =>
        GroupsFromLeftMaximal(slots, i + 1);
      case Some(h) =>
        var e := RunEnd(slots, Signature(h), i + 1);
        assert SigAt(slots, e - 1) == Some(Signature(h));
        GroupsFromLeftMaximal(slots, e);
        FirstGroup(slots, i, h);
        GroupsFromTail(slots, i, h);
    }
  }

  /** `d` is among the days of the run `Week[a..b]` exactly when its index is in `[a, b)`. */
  lemma InWeekSlice(d: Day, a: nat, b: nat)
    requires a <= b <= 7
    ensures d in Week[a..b] <==> a <= Index(d) < b
  {
    if a <= Index(d) < b {
      assert Week[a..b][Index(d) - a] == d;
    }
    if d in Week[a..b] {
      var j :| a <= j < b && Week[j] == d;
      IndexOfWeek(j);
    }
  }

  /** Each group of a day map is a maximal run, and there are at most seven. */
  lemma GroupingMaximalRuns(m: map<string, Hours>)
    ensures var gs := GroupConsecutive(m);
      |gs| <= 7 && forall k :: 0 <= k < |gs| ==> IsMaximalRun(SlotsOf(m), gs[k])
  {
    GroupsFromAreRuns(SlotsOf(m), 0);
    GroupsFromLeftMaximal(SlotsOf(m), 0);
  }

  /** A day is in a group exactly when its index lies in the group's range. */
  lemma InGroupIff(slots: Slots, g: Group, d: Day)
    requires IsRun(slots, g)
    ensures d in g.days <==> Start(g) <= Index(d) < End(g)
  {
    InWeekSlice(d, Start(g), End(g));
  }

  /** Exactly the days with an entry are in some group. */
  lemma GroupingCovers(m: map<string, Hours>)
    ensures var gs := GroupConsecutive(m);
      forall d: Day :: Key(d) in m <==> exists k :: 0 <= k < |gs| && d in gs[k].days
  {
    var slots := SlotsOf(m);
    var gs := GroupConsecutive(m);
    GroupsFromAreRuns(slots, 0);
    GroupsFromCover(slots, 0);
    forall d: Day
      ensures Key(d) in m <==> exists k :: 0 <= k < |gs| && d in gs[k].days
    {
      assert slots[Index(d)].Some? <==> Key(d) in m;
      forall k | 0 <= k < |gs|
        ensures d in gs[k].days <==> Start(gs[k]) <= Index(d) < End(gs[k])
      {
        InGroupIff(slots, gs[k], d);
      }
    }
  }

  /** No day is in two groups. */
  lemma GroupingDisjoint(m: map<string, Hours>)
    ensures var gs := GroupConsecutive(m);
      forall d: Day, k1, k2 :: 0 <= k1 < |gs| && 0 <= k2 < |gs| && d in gs[k1].days && d in gs[k2].days ==> k1 == k2
  {
    var slots := SlotsOf(m);
    var gs := GroupConsecutive(m);
    GroupsFromAreRuns(slots, 0);
    GroupsFromOrdered(slots, 0);
    forall d: Day, k1, k2 | 0 <= k1 < |gs| && 0 <= k2 < |gs| && d in gs[k1].days && d in gs[k2].days
      ensures k1 == k2
    {
      InGroupIff(slots, gs[k1], d);
      InGroupIff(slots, gs[k2], d);
    }
  }

  /** The position of each day in its group follows the week. */
  lemma GroupDayIndex(slots: Slots, g: Group, x: nat)
    requires IsRun(slots, g) && x < |g.days|
    ensures Index(g.days[x]) == Start(g) + x
  {
    IndexOfWeek(Start(g) + x);
  }

  /** Groups, and the days inside each group, follow Monday-to-Sunday order. */
  lemma GroupingDayOrder(m: map<string, Hours>)
    ensures var gs := GroupConsecutive(m);
      && (forall k1, k2, x, y :: 0 <= k1 < k2 < |gs| && 0 <= x < |gs[k1].days| && 0 <= y < |gs[k2].days| ==>
            Index(gs[k1].days[x]) < Index(gs[k2].days[y]))
      && (forall k, x, y :: 0 <= k < |gs| && 0 <= x < y < |gs[k].days| ==> Index(gs[k].days[x]) < Index(gs[k].days[y]))
  {
    var slots := SlotsOf(m);
    var gs := GroupConsecutive(m);
    GroupsFromAreRuns(slots, 0);
    GroupsFromOrdered(slots, 0);
    forall k, x | 0 <= k < |gs| && 0 <= x < |gs[k].days|
      ensures Index(gs[k].days[x]) == Start(gs[k]) + x
    {
      GroupDayIndex(slots, gs[k], x);
    }
  }

  /** Partition and maximal-run theorem for the grouping of a day map: every day with an
      entry is in exactly one group, a day without one is in none, groups and the days in
      them follow Monday-to-Sunday order, each group is a maximal run of consecutive days
      with equal signature, and there are at most seven groups. */
  lemma GroupingPartitionsDays(m: map<string, Hours>)
    ensures var gs := GroupConsecutive(m);
      && |gs| <= 7
      && (forall k :: 0 <= k < |gs| ==> IsMaximalRun(SlotsOf(m), gs[k]))
      && (forall d: Day :: Key(d) in m <==> exists k :: 0 <= k < |gs| && d in gs[k].days)
      && (forall d: Day, k1, k2 :: 0 <= k1 < |gs| && 0 <= k2 < |gs| && d in gs[k1].days && d in gs[k2].days ==> k1 == k2)
      && (forall k1, k2, x, y :: 0 <= k1 < k2 < |gs| && 0 <= x < |gs[k1].days| && 0 <= y < |gs[k2].days| ==>
            Index(gs[k1].days[x]) < Index(gs[k2].days[y]))
      && (forall k, x, y :: 0 <= k < |gs| && 0 <= x < y < |gs[k].days| ==> Index(gs[k].days[x]) < Index(gs[k].days[y]))
  {
    GroupingMaximalRuns(m);
    GroupingCovers(m);
    GroupingDisjoint(m);
    GroupingDayOrder(m);
  }

  /** Index of the first `-` in `s` (|s| if there is none). */
  function FirstDash(s: string): (n: nat)
    ensures n <= |s|
  {
    if s == [] || s[0] == '-' then 0 else 1 + FirstDash(s[1..])
  }

  lemma {:induction false} FirstDashOfSignature(a: string, rest: string)
    requires '-' !in a && rest != [] && rest[0] == '-'
    ensures FirstDash(a + rest) == |a|
  {
    if a != [] {
      assert (a + rest)[1..] == a[1..] + rest;
      FirstDashOfSignature(a[1..], rest);
    }
  }

  /** The compiler compares signatures, not pairs; for times without a `-` (such as
      `HH:MM`) the two comparisons agree. */
  lemma SignatureInjective(h1: Hours, h2: Hours)
    requires '-' !in h1.open && '-' !in h1.close && '-' !in h2.open && '-' !in h2.close
    ensures Signature(h1) == Signature(h2) <==> h1 == h2
  {
    var s1, s2 := Signature(h1), Signature(h2);
    if s1 == s2 {
      assert s1 == h1.open + ("-" + h1.close) && s2 == h2.open + ("-" + h2.close);
      FirstDashOfSignature(h1.open, "-" + h1.close);
      FirstDashOfSignature(h2.open, "-" + h2.close);
      assert h1.open == s1[..|h1.open|] && h2.open == s2[..|h2.open|];
      assert h1.close == s1[|h1.open| + 1..] && h2.close == s2[|h2.open| + 1..];
    }
  }

  /** With a `-` inside a time, two different pairs can share a signature. */
  lemma SignatureCollision()
    ensures Signature(Hours("a-b", "c")) == Signature(Hours("a", "b-c"))
    ensures Hours("a-b", "c") != Hours("a", "b-c")
  {
  }

  /** Keys other than the seven lower-case day names do not affect the grouping. */
  lemma NonDayKeysIgnored(m: map<string, Hours>, k: string, h: Hours)
    requires forall d: Day :: k != Key(d)
    ensures GroupConsecutive(m[k := h]) == GroupConsecutive(m)
  {
    assert SlotsOf(m[k := h]) == SlotsOf(m);
  }

  /** `dayTimes` of the source: every key of the day map with its time signature. */
  function DayTimes(m: map<string, Hours>): (t: map<string, string>)
    ensures t.Keys == m.Keys
    ensures forall k :: k in m ==> t[k] == Signature(m[k])
  {
    map k | k in m :: Signature(m[k])
  }

  /** The days with index in `[a, b)`. */
  function DaysBetween(a: nat, b: nat): (ds: set<Day>)
    ensures forall j :: 0 <= j < 7 ==> (Week[j] in ds <==> a <= j < b)
  {
    var ds := set j | a <= j < b && j < 7 :: Week[j];
    assert forall j :: 0 <= j < 7 ==> (Week[j] in ds <==> a <= j < b) by {
      forall j | 0 <= j < 7 && Week[j] in ds
        ensures a <= j < b
      {
        var j' :| a <= j' < b && j' < 7 && Week[j'] == Week[j];
        IndexOfWeek(j);
        IndexOfWeek(j');
      }
    }
    ds
  }

  lemma DaysBetweenExtend(a: nat, b: nat)
    requires a <= b < 7
    ensures DaysBetween(a, b + 1) == DaysBetween(a, b) + {Week[b]}
  {
    forall x: Day
      ensures x in DaysBetween(a, b + 1) <==> x in DaysBetween(a, b) + {Week[b]}
    {
      IndexOfWeek(b);
      assert Week[Index(x)] == x;
    }
  }

  /** The inner loop of the source's grouping: starting after the seed day `d`, append
      each following day whose signature equals the seed's, marking it processed, and
      stop at the first day that differs or at the end of the week. */
  method ExtendGroup(openingHours: map<string, Hours>, dayTimes: map<string, string>,
                     currentTime: string, d: nat, processed: set<Day>)
    returns (days: seq<Day>, nextDayIndex: nat, processed': set<Day>)
    requires dayTimes == DayTimes(openingHours) && d < 7
    ensures nextDayIndex == RunEnd(SlotsOf(openingHours), currentTime, d + 1)
    ensures days == Week[d..nextDayIndex]
    ensures processed' == processed + DaysBetween(d + 1, nextDayIndex)
  {
    ghost var slots := SlotsOf(openingHours);
    days := [Week[d]];
    assert days == Week[d..d + 1];
    processed' := processed;
    nextDayIndex := d + 1;
    while nextDayIndex < 7
      invariant d + 1 <= nextDayIndex <= 7
      invariant days == Week[d..nextDayIndex]
      invariant RunEnd(slots, currentTime, nextDayIndex) == RunEnd(slots, currentTime, d + 1)
      invariant processed' == processed + DaysBetween(d + 1, nextDayIndex)
    {
      var nextDay := Week[nextDayIndex];
      if Key(nextDay) in dayTimes && dayTimes[Key(nextDay)] == currentTime {
        WeekSliceExtend(d, nextDayIndex);
        DaysBetweenExtend(d + 1, nextDayIndex);
        days := days + [nextDay];
        processed' := processed' + {nextDay};
        nextDayIndex := nextDayIndex + 1;
      } else {
        break;
      }
    }
  }

  /** After a group over days `d` to `e - 1` is emitted, exactly the days of the group
      are marked among those after `d`. */
  lemma ProcessedAfterRun(before: set<Day>, after: set<Day>, d: nat, e: nat)
    requires d < e <= 7
    requires forall j :: d <= j < 7 ==> Week[j] !in before
    requires after == before + {Week[d]} + DaysBetween(d + 1, e)
    ensures forall j :: d + 1 <= j < 7 ==> (Week[j] in after <==> j < e)
  {
    forall j | d + 1 <= j < 7
      ensures Week[j] in after <==> j < e
    {
      IndexOfWeek(j);
      IndexOfWeek(d);
    }
  }

  lemma AppendGroup(groups: seq<Group>, g: Group, rest: seq<Group>)
    ensures (groups + [g]) + rest == groups + ([g] + rest)
  {
  }

  /** The grouping as the source writes it: a time signature per map key, then a walk
      over the seven days that skips processed or unlisted days and extends each new
      group through the following days with the same signature. */
  method GroupConsecutiveDays(openingHours: map<string, Hours>) returns (groups: seq<Group>)
    ensures groups == GroupsFrom(SlotsOf(openingHours), 0)
  {
    ghost var slots := SlotsOf(openingHours);
    var dayTimes := DayTimes(openingHours);
    var processed: set<Day> := {};
    groups := [];
    ghost var next: nat := 0;
    for d := 0 to 7
      invariant d <= next <= 7
      invariant forall j :: d <= j < 7 ==> (Week[j] in processed <==> j < next)
      invariant groups + GroupsFrom(slots, next) == GroupsFrom(slots, 0)
    {
      var day := Week[d];
      if day in processed || Key(day) !in dayTimes || dayTimes[Key(day)] == "" {
        if day !in processed {
          IndexOfWeek(d);
          assert d == next && slots[d].None?;
          GroupsFromStep(slots, d);
          next := d + 1;
        }
        continue;
      }
      IndexOfWeek(d);
      assert d == next;
      ghost var h := openingHours[Key(day)];
      assert slots[d] == Some(h);
      GroupsFromStep(slots, d);
      var currentTime := dayTimes[Key(day)];
      var opens := openingHours[Key(day)].open;
      var closes := openingHours[Key(day)].close;
      ghost var before := processed;
      processed := processed + {day};
      var days, nextDayIndex;
      days, nextDayIndex, processed := ExtendGroup(openingHours, dayTimes, currentTime, d, processed);
      assert GroupsFrom(slots, d) == [Group(days, opens, closes)] + GroupsFrom(slots, nextDayIndex);
      ProcessedAfterRun(before, processed, d, nextDayIndex);
      AppendGroup(groups, Group(days, opens, closes), GroupsFrom(slots, nextDayIndex));
      groups := groups + [Group(days, opens, closes)];
      next := nextDayIndex;
    }
  }

  /** The `dayOfWeek` value of a specification: one label, or an array of labels. */
  datatype DayOfWeek = OneDay(day: Day) | Days(days: seq<Day>)

  function DaysOf(dow: DayOfWeek): seq<Day> {
    match dow
    case OneDay(d) => [d]
    case Days(ds) => ds
  }

  /** An OpeningHoursSpecification entry (its `@type` is implicit). */
  datatype Spec = Spec(dayOfWeek: DayOfWeek, opens: string, closes: string)

  /** The single entry a 24/7 business gets. */
  const AllWeekSpec: Spec := Spec(Days(Week), "00:00", "23:59")

  /** `buildOpeningHours`: the 24/7 flag wins over the day map; no day map gives no
      entries; otherwise one entry per group, with a scalar `dayOfWeek` exactly for
      one-day groups. */
  function BuildOpeningHours(open24Hours: bool, openingHours: Option<map<string, Hours>>): (r: seq<Spec>)
    ensures open24Hours ==> r == [AllWeekSpec]
    ensures !open24Hours && openingHours.None? ==> r == []
    ensures !open24Hours && openingHours.Some? ==>
      var gs := GroupConsecutive(openingHours.value);
      && |r| == |gs|
      && forall k :: 0 <= k < |r| ==>
           && DaysOf(r[k].dayOfWeek) == gs[k].days
           && (r[k].dayOfWeek.OneDay? <==> |gs[k].days| == 1)
           && r[k].opens == gs[k].opens && r[k].closes == gs[k].closes
  {
    if open24Hours then [AllWeekSpec]
    else if openingHours.None? then []
    else
      var gs := GroupConsecutive(openingHours.value);
      seq(|gs|, k requires 0 <= k < |gs| =>
        Spec(if |gs[k].days| == 1 then OneDay(gs[k].days[0]) else Days(gs[k].days),
             gs[k].opens, gs[k].closes))
  }

  /** At the level of specifications: each day listed in the day map is named by exactly
      one entry, and a day not listed is named by none. */
  lemma SpecsPartitionDays(m: map<string, Hours>)
    ensures var r := BuildOpeningHours(false, Some(m));
      && |r| <= 7
      && (forall d: Day :: Key(d) in m <==> exists k :: 0 <= k < |r| && d in DaysOf(r[k].dayOfWeek))
      && (forall d: Day, k1, k2 ::
            (0 <= k1 < |r| && 0 <= k2 < |r| && d in DaysOf(r[k1].dayOfWeek) && d in DaysOf(r[k2].dayOfWeek))
            ==> k1 == k2)
  {
    GroupingPartitionsDays(m);
  }

  /** Monday to Wednesday with equal hours become one entry. */
  lemma ThreeEqualDaysMerge()
    ensures BuildOpeningHours(false, Some(map["monday" := Hours("09:00", "17:00"),
                                             "tuesday" := Hours("09:00", "17:00"),
                                             "wednesday" := Hours("09:00", "17:00")]))
            == [Spec(Days([Monday, Tuesday, Wednesday]), "09:00", "17:00")]
  {
    var m := map["monday" := Hours("09:00", "17:00"),
                 "tuesday" := Hours("09:00", "17:00"),
                 "wednesday" := Hours("09:00", "17:00")];
    var slots := SlotsOf(m);
    var h := Hours("09:00", "17:00");
    assert slots == [Some(h), Some(h), Some(h), None, None, None, None];
    assert RunEnd(slots, Signature(h), 1) == 3;
    assert GroupsFrom(slots, 3) == [];
    assert Week[0..3] == [Monday, Tuesday, Wednesday];
  }

  /** Equal hours on days that are not adjacent stay in separate entries. */
  lemma GapKeepsGroupsApart()
    ensures BuildOpeningHours(false, Some(map["monday" := Hours("09:00", "17:00"),
                                             "wednesday" := Hours("09:00", "17:00")]))
            == [Spec(OneDay(Monday), "09:00", "17:00"), Spec(OneDay(Wednesday), "09:00", "17:00")]
  {
    var m := map["monday" := Hours("09:00", "17:00"), "wednesday" := Hours("09:00", "17:00")];
    var slots := SlotsOf(m);
    var h := Hours("09:00", "17:00");
    assert slots == [Some(h), None, Some(h), None, None, None, None];
    assert RunEnd(slots, Signature(h), 1) == 1;
    assert RunEnd(slots, Signature(h), 3) == 3;
    assert GroupsFrom(slots, 3) == [];
    assert Week[2..3] == [Wednesday];
    assert GroupsFrom(slots, 2) == [Group([Wednesday], "09:00", "17:00")];
    assert GroupsFrom(slots, 1) == GroupsFrom(slots, 2);
    assert Week[0..1] == [Monday];
  }

  /** Sunday and Monday are never merged: the week does not wrap around. */
  lemma NoWrapAround()
    ensures BuildOpeningHours(false, Some(map["sunday" := Hours("09:00", "17:00"),
                                             "monday" := Hours("09:00", "17:00")]))
            == [Spec(OneDay(Monday), "09:00", "17:00"), Spec(OneDay(Sunday), "09:00", "17:00")]
  {
    var m := map["sunday" := Hours("09:00", "17:00"), "monday" := Hours("09:00", "17:00")];
    var slots := SlotsOf(m);
    var h := Hours("09:00", "17:00");
    assert slots == [Some(h), None, None, None, None, None, Some(h)];
    assert RunEnd(slots, Signature(h), 1) == 1;
    assert RunEnd(slots, Signature(h), 7) == 7;
    assert GroupsFrom(slots, 7) == [];
    assert Week[6..7] == [Sunday];
    assert GroupsFrom(slots, 6) == [Group([Sunday], "09:00", "17:00")];
    assert GroupsFrom(slots, 1) == GroupsFrom(slots, 2) == GroupsFrom(slots, 3) == GroupsFrom(slots, 4)
        == GroupsFrom(slots, 5) == GroupsFrom(slots, 6);
    assert Week[0..1] == [Monday];
  }
}
