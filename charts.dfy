/** The summary cards and the three charts that `updateDashboard` renders
    after a load (csv-load/script.js:155-364). The charts are the data handed
    to the chart library: labels and values. */
module Charts {
  import opened Text
  import opened OrderedMaps
  import opened Groups
  import opened Csv
  import opened Ranking

  // ---------------------------------------------------------------------
  // Summary cards

  datatype Summary = Summary(registrationCount: nat, totalMembers: int, sportCount: nat, average: real)

  /** The distinct sports of the records (`new Set(rawData.map(d => d.sportType))`). */
  function Sports(raw: seq<Record>): (sports: set<string>)
    ensures forall i :: 0 <= i < |raw| ==> raw[i].sportType in sports
    ensures forall k :: k in sports ==> exists i :: 0 <= i < |raw| && raw[i].sportType == k
  {
    if raw == [] then {} else Sports(raw[..|raw| - 1]) + {raw[|raw| - 1].sportType}
  }

  /** `updateSummaryCards` (script.js:155-173): number of groups, members
      over all groups, number of sports, and the mean group size, 0 when
      there is no group. */
  function SummaryCards(groups: seq<GroupStats>, raw: seq<Record>): (s: Summary)
    ensures s.registrationCount == |groups|
    ensures s.totalMembers == SumTotals(groups)
    ensures s.sportCount == |Sports(raw)|
    ensures s.average == Mean(s.totalMembers, s.registrationCount)
  {
    var total := SumTotals(groups);
    Summary(|groups|, total, |Sports(raw)|, Mean(total, |groups|))
  }

  /** The mean group size: `total / count` when there is a group, and 0
      otherwise (script.js:169). */
  function Mean(total: int, count: nat): (m: real)
    ensures count > 0 ==> m * count as real == total as real
    ensures count == 0 ==> m == 0.0
  {
    if count > 0 then total as real / count as real else 0.0
  }

  /** There are no more sports than records, and at least one when there
      is a record. */
  lemma {:induction false} SportsBound(raw: seq<Record>)
    ensures |Sports(raw)| <= |raw|
    ensures raw != [] ==> |Sports(raw)| >= 1
  {
    if raw != [] {
      SportsBound(raw[..|raw| - 1]);
    }
  }

  /** After a load the cards count the distinct registration names, add up
      every member of every record, and count the distinct sport types of
      the records, which lie between 1 and the number of records. */
  lemma SummaryAfterLoad(raw: seq<Record>)
    requires forall i :: 0 <= i < |raw| ==> raw[i].TotalIsSum()
    ensures SummaryCards(Aggregate(raw), raw).registrationCount == |Names(raw)|
    ensures SummaryCards(Aggregate(raw), raw).totalMembers == SumField(raw, Total)
    ensures SummaryCards(Aggregate(raw), raw).sportCount == |set i | 0 <= i < |raw| :: raw[i].sportType|
    ensures SummaryCards(Aggregate(raw), raw).sportCount <= |raw|
    ensures raw != [] ==> SummaryCards(Aggregate(raw), raw).sportCount >= 1
  {
    GroupCount(raw);
    Conservation(raw);
    SportsBound(raw);
    SportsAsSet(raw);
  }

  lemma SportsAsSet(raw: seq<Record>)
    ensures Sports(raw) == set i | 0 <= i < |raw| :: raw[i].sportType
  {
    var s := set i | 0 <= i < |raw| :: raw[i].sportType;
    forall k | k in Sports(raw)
      ensures k in s
    {
      var i :| 0 <= i < |raw| && raw[i].sportType == k;
    }
  }

  // ---------------------------------------------------------------------
  // The two charts ranked by group size

  function GroupTotal(g: GroupStats): int {
    g.total
  }

  /** Labels and values of a single-series chart. */
  datatype BarSeries = BarSeries(labels: seq<string>, data: seq<int>)

  /** The names and totals of the `n` largest groups, largest first. */
  function TopGroupsChart(groups: seq<GroupStats>, n: nat): (c: BarSeries)
    ensures |c.labels| == |c.data| <= n
    ensures |c.data| <= |groups|
  {
    var top := TopN(groups, GroupTotal, n);
    BarSeries(seq(|top|, i requires 0 <= i < |top| => top[i].registrationName),
      seq(|top|, i requires 0 <= i < |top| => top[i].total))
  }

  /** `updateTop10Chart` (script.js:183-190). */
  function Top10Chart(groups: seq<GroupStats>): (c: BarSeries)
    ensures |c.labels| == |c.data| <= 10
  {
    TopGroupsChart(groups, 10)
  }

  /** `updateQuantityDistributionChart` (script.js:293-300). */
  function DistributionChart(groups: seq<GroupStats>): (c: BarSeries)
    ensures |c.labels| == |c.data| <= 15
  {
    TopGroupsChart(groups, 15)
  }

  /** A ranked group chart shows as many groups as it may, largest first;
      every bar is a group of the input; and a group that is not shown is no
      larger than any group that is. */
  lemma TopGroupsChartProperties(groups: seq<GroupStats>, n: nat)
    ensures |TopGroupsChart(groups, n).data| == if n < |groups| then n else |groups|
    ensures var c := TopGroupsChart(groups, n);
      forall i, j :: 0 <= i < j < |c.data| ==> c.data[i] >= c.data[j]
    ensures var c := TopGroupsChart(groups, n);
      forall i :: 0 <= i < |c.data| ==>
        exists g :: g in groups && g.registrationName == c.labels[i] && g.total == c.data[i]
    ensures var c := TopGroupsChart(groups, n);
      forall g, i :: g in groups && g.registrationName !in c.labels && 0 <= i < |c.data| ==> g.total <= c.data[i]
  {
    var top := TopN(groups, GroupTotal, n);
    var c := TopGroupsChart(groups, n);
    TopNSorted(groups, GroupTotal, n);
    TopNDrawn(groups, GroupTotal, n);
    forall i | 0 <= i < |c.data|
      ensures exists g :: g in groups && g.registrationName == c.labels[i] && g.total == c.data[i]
    {
      assert top[i] in multiset(top);
      assert top[i] in multiset(groups);
    }
    forall g, i | g in groups && g.registrationName !in c.labels && 0 <= i < |c.data|
      ensures g.total <= c.data[i]
    {
      forall j | 0 <= j < |top|
        ensures top[j] != g
      {
        assert c.labels[j] == top[j].registrationName;
      }
      assert g in multiset(groups) - multiset(top);
      TopNLeftOut(groups, GroupTotal, n, g);
    }
  }

  /** Groups of equal size appear in the order of the input: for each size,
      the chart shows the first groups of that size. */
  lemma TopGroupsChartStable(groups: seq<GroupStats>, n: nat, size: int)
    ensures var top := TopN(groups, GroupTotal, n);
      |WithKey(top, GroupTotal, size)| <= |WithKey(groups, GroupTotal, size)|
    ensures var top := TopN(groups, GroupTotal, n);
      WithKey(top, GroupTotal, size) == WithKey(groups, GroupTotal, size)[..|WithKey(top, GroupTotal, size)|]
  {
    TopNStable(groups, GroupTotal, n, size);
  }

  // ---------------------------------------------------------------------
  // Members by sport

  /** The running `{ total, count }` object of one sport. */
  datatype SportTally = SportTally(total: int, count: nat)

  /** One execution of the inner loop body: a sport and the amount added. */
  datatype Contribution = Contribution(sport: string, amount: int)

  /** What the inner loop adds for one group: for every record of that
      group, in record order, the group's whole total under the record's
      sport. */
  function GroupContributions(g: GroupStats, raw: seq<Record>): (cs: seq<Contribution>)
    ensures |cs| == |RecordsOf(raw, g.registrationName)|
    ensures forall i :: 0 <= i < |cs| ==> cs[i].amount == g.total
    ensures forall i :: 0 <= i < |cs| ==> cs[i].sport == RecordsOf(raw, g.registrationName)[i].sportType
  {
    if raw == [] then []
    else
      var d := raw[|raw| - 1];
      GroupContributions(g, raw[..|raw| - 1]) +
        (if d.registrationName == g.registrationName then [Contribution(d.sportType, g.total)] else [])
  }

  /** Everything the two nested loops add, in the order they add it. */
  function Contributions(groups: seq<GroupStats>, raw: seq<Record>): (cs: seq<Contribution>)
    ensures forall c :: c in cs ==> exists g :: g in groups && c.amount == g.total
  {
    if groups == [] then []
    else
      var init := groups[..|groups| - 1];
      assert forall g :: g in init ==> g in groups;
      Contributions(init, raw) + GroupContributions(groups[|groups| - 1], raw)
  }

  /** The sports in order of their first contribution. */
  function SportOrder(cs: seq<Contribution>): (sports: seq<string>)
    ensures Distinct(sports)
    ensures forall k :: k in sports <==> exists i :: 0 <= i < |cs| && cs[i].sport == k
  {
    if cs == [] then []
    else
      var prev := SportOrder(cs[..|cs| - 1]);
      var k := cs[|cs| - 1].sport;
      assert forall i :: 0 <= i < |cs| - 1 ==> cs[..|cs| - 1][i] == cs[i];
      if k in prev then prev else prev + [k]
  }

  /** The sum of the amounts and the number of contributions to sport `k`. */
  function TallyOf(cs: seq<Contribution>, k: string): (t: SportTally)
    ensures t.count <= |cs|
    ensures t.count == 0 ==> t.total == 0
  {
    if cs == [] then SportTally(0, 0)
    else
      var prev := TallyOf(cs[..|cs| - 1], k);
      var c := cs[|cs| - 1];
      if c.sport == k then SportTally(prev.total + c.amount, prev.count + 1) else prev
  }

  /** `m` is the `membersBySport` object after the contributions `cs`: its
      sports in order of first contribution, each with its tally. */
  ghost predicate Describes(m: OrderedMap<SportTally>, cs: seq<Contribution>) {
    && m.Valid()
    && m.keys == SportOrder(cs)
    && forall k :: k in m.byKey ==> m.byKey[k] == TallyOf(cs, k)
  }

  /** The `membersBySport` object after `cs`, built in one go. */
  function SportTallies(cs: seq<Contribution>): (m: OrderedMap<SportTally>)
    ensures Describes(m, cs)
  {
    var keys := SportOrder(cs);
    OrderedMap(keys, map k | k in keys :: TallyOf(cs, k))
  }

  /** The contributions fix the object completely. */
  lemma DescribesUnique(m1: OrderedMap<SportTally>, m2: OrderedMap<SportTally>, cs: seq<Contribution>)
    requires Describes(m1, cs) && Describes(m2, cs)
    ensures m1 == m2
  {
    assert m1.byKey.Keys == m2.byKey.Keys;
  }

  lemma {:induction false} TallyOfAbsent(cs: seq<Contribution>, k: string)
    requires k !in SportOrder(cs)
    ensures TallyOf(cs, k) == SportTally(0, 0)
  {
    if cs != [] {
      TallyOfAbsent(cs[..|cs| - 1], k);
    }
  }

  /** The inner loop body's update of `membersBySport` for one contribution:
      a missing sport is first added as `{ total: 0, count: 0 }`. */
  function Bump(m: OrderedMap<SportTally>, c: Contribution): (r: OrderedMap<SportTally>)
    requires m.Valid()
    ensures r.Valid()
  {
    var m1 := if c.sport !in m.byKey then m.Put(c.sport, SportTally(0, 0)) else m;
    var t := m1.byKey[c.sport];
    m1.Put(c.sport, SportTally(t.total + c.amount, t.count + 1))
  }

  lemma BumpDescribes(m: OrderedMap<SportTally>, cs: seq<Contribution>, c: Contribution)
    requires Describes(m, cs)
    ensures Describes(Bump(m, c), cs + [c])
  {
    var after := cs + [c];
    assert after[..|after| - 1] == cs;
    if c.sport !in m.byKey {
      TallyOfAbsent(cs, c.sport);
    }
    var r := Bump(m, c);
    forall k | k in r.byKey
      ensures r.byKey[k] == TallyOf(after, k)
    {
      TallyOfSnoc(cs, c, k);
    }
  }

  /** `updatePriceComparisonChart`'s nested loops (script.js:229-240): for
      every group, for every record of that group, the group's total is
      added to the record's sport and that sport's count goes up by one. */
  method MembersBySport(groups: seq<GroupStats>, raw: seq<Record>) returns (bySport: OrderedMap<SportTally>)
    ensures Describes(bySport, Contributions(groups, raw))
  {
    bySport := Empty();
    var i := 0;
    while i < |groups|
      invariant 0 <= i <= |groups|
      invariant Describes(bySport, Contributions(groups[..i], raw))
    {
      assert groups[..i + 1][..i] == groups[..i];
      bySport := AddGroup(bySport, groups[i], raw, Contributions(groups[..i], raw));
      i := i + 1;
    }
    assert groups[..i] == groups;
  }

  /** The contributions of one group grow by at most one per record. */
  lemma GroupContributionsSnoc(g: GroupStats, raw: seq<Record>, j: nat)
    requires j < |raw|
    ensures GroupContributions(g, raw[..j + 1]) == GroupContributions(g, raw[..j]) +
      (if raw[j].registrationName == g.registrationName then [Contribution(raw[j].sportType, g.total)] else [])
  {
    assert raw[..j + 1][..j] == raw[..j];
  }

  /** One pass of the inner loop keeps the tallies describing everything
      added so far. */
  lemma AddGroupStep(m: OrderedMap<SportTally>, group: GroupStats, raw: seq<Record>, j: nat,
                     done: seq<Contribution>, cs: seq<Contribution>)
    requires j < |raw| && Describes(m, cs)
    requires cs == done + GroupContributions(group, raw[..j])
    ensures raw[j].registrationName == group.registrationName ==>
      var c := Contribution(raw[j].sportType, group.total);
      && cs + [c] == done + GroupContributions(group, raw[..j + 1])
      && Describes(Bump(m, c), cs + [c])
    ensures raw[j].registrationName != group.registrationName ==>
      cs == done + GroupContributions(group, raw[..j + 1])
  {
    var d := raw[j];
    ghost var prev := GroupContributions(group, raw[..j]);
    GroupContributionsSnoc(group, raw, j);
    if d.registrationName == group.registrationName {
      var c := Contribution(d.sportType, group.total);
      BumpDescribes(m, cs, c);
      assert cs + [c] == done + (prev + [c]);
    }
  }

  /** The outer loop body: the inner loop over all records for one group. */
  method AddGroup(bySport0: OrderedMap<SportTally>, group: GroupStats, raw: seq<Record>, ghost done: seq<Contribution>)
    returns (bySport: OrderedMap<SportTally>)
    requires Describes(bySport0, done)
    ensures Describes(bySport, done + GroupContributions(group, raw))
  {
    bySport := bySport0;
    ghost var cs := done;
    var j := 0;
    assert cs == done + GroupContributions(group, raw[..j]);
    while j < |raw|
      invariant 0 <= j <= |raw|
      invariant cs == done + GroupContributions(group, raw[..j])
      invariant Describes(bySport, cs)
    {
      var d := raw[j];
      AddGroupStep(bySport, group, raw, j, done, cs);
      if d.registrationName == group.registrationName {
        var c := Contribution(d.sportType, group.total);
        bySport := Bump(bySport, c);
        cs := cs + [c];
      }
      j := j + 1;
    }
    assert raw[..j] == raw;
  }

  // ---------------------------------------------------------------------
  // What the per-sport tallies count

  function Plus(a: SportTally, b: SportTally): SportTally {
    SportTally(a.total + b.total, a.count + b.count)
  }

  /** Each registration name's group total once `raw` is loaded. */
  function GroupTotals(raw: seq<Record>): string -> int {
    name => GroupFor(raw, name).total
  }

  /** Over the records of `recs` with sport `s` and a registration in
      `names`: how many there are, and the sum, record by record, of the
      weight of that record's registration. */
  function TallyIn(recs: seq<Record>, s: string, names: set<string>, weight: string -> int): SportTally {
    if recs == [] then SportTally(0, 0)
    else
      var d := recs[|recs| - 1];
      var prev := TallyIn(recs[..|recs| - 1], s, names, weight);
      if d.sportType == s && d.registrationName in names
      then Plus(prev, SportTally(weight(d.registrationName), 1))
      else prev
  }

  /** The same over every record of sport `s`. */
  function SportRecordsTally(recs: seq<Record>, s: string, weight: string -> int): SportTally {
    if recs == [] then SportTally(0, 0)
    else
      var d := recs[|recs| - 1];
      var prev := SportRecordsTally(recs[..|recs| - 1], s, weight);
      if d.sportType == s then Plus(prev, SportTally(weight(d.registrationName), 1)) else prev
  }

  function GroupNames(groups: seq<GroupStats>): (names: set<string>)
    ensures forall k :: k in names <==> exists i :: 0 <= i < |groups| && groups[i].registrationName == k
  {
    if groups == [] then {}
    else
      var init := groups[..|groups| - 1];
      assert forall i :: 0 <= i < |init| ==> init[i] == groups[i];
      GroupNames(init) + {groups[|groups| - 1].registrationName}
  }

  lemma {:induction false} TallyOfAppend(a: seq<Contribution>, b: seq<Contribution>, s: string)
    ensures TallyOf(a + b, s) == Plus(TallyOf(a, s), TallyOf(b, s))
  {
    if b != [] {
      var ab := a + b;
      assert ab[..|ab| - 1] == a + b[..|b| - 1];
      TallyOfAppend(a, b[..|b| - 1], s);
    } else {
      assert a + b == a;
    }
  }

  lemma TallyOfSnoc(cs: seq<Contribution>, c: Contribution, k: string)
    ensures TallyOf(cs + [c], k) ==
      if c.sport == k then Plus(TallyOf(cs, k), SportTally(c.amount, 1)) else TallyOf(cs, k)
  {
    assert (cs + [c])[..|cs|] == cs;
  }

  lemma {:induction false} GroupContributionsTally(g: GroupStats, recs: seq<Record>, s: string, weight: string -> int)
    requires g.total == weight(g.registrationName)
    ensures TallyOf(GroupContributions(g, recs), s) == TallyIn(recs, s, {g.registrationName}, weight)
  {
    if recs != [] {
      var init := recs[..|recs| - 1];
      var d := recs[|recs| - 1];
      GroupContributionsTally(g, init, s, weight);
      var prev := GroupContributions(g, init);
      if d.registrationName == g.registrationName {
        var c := Contribution(d.sportType, g.total);
        assert GroupContributions(g, recs) == prev + [c];
        TallyOfSnoc(prev, c, s);
      } else {
        assert GroupContributions(g, recs) == prev;
      }
    }
  }

  lemma {:induction false} TallyInUnion(recs: seq<Record>, s: string, names: set<string>, n: string, weight: string -> int)
    requires n !in names
    ensures TallyIn(recs, s, names + {n}, weight) == Plus(TallyIn(recs, s, names, weight), TallyIn(recs, s, {n}, weight))
  {
    if recs != [] {
      TallyInUnion(recs[..|recs| - 1], s, names, n, weight);
    }
  }

  /** For groups with distinct names whose totals are those of `raw`, the
      nested loops give each sport the number of records of that sport that
      belong to one of the groups, and add for each such record the total of
      its whole group. */
  lemma {:induction false} ContributionsTally(groups: seq<GroupStats>, raw: seq<Record>, s: string, weight: string -> int)
    requires forall i, j :: 0 <= i < j < |groups| ==> groups[i].registrationName != groups[j].registrationName
    requires forall i :: 0 <= i < |groups| ==> groups[i].total == weight(groups[i].registrationName)
    ensures TallyOf(Contributions(groups, raw), s) == TallyIn(raw, s, GroupNames(groups), weight)
  {
    if groups != [] {
      var init := groups[..|groups| - 1];
      var g := groups[|groups| - 1];
      assert forall i, j :: 0 <= i < j < |init| ==> init[i] == groups[i] && init[j] == groups[j];
      ContributionsTally(init, raw, s, weight);
      assert Contributions(groups, raw) == Contributions(init, raw) + GroupContributions(g, raw);
      assert GroupNames(groups) == GroupNames(init) + {g.registrationName};
      assert g.registrationName !in GroupNames(init);
      TallyOfAppend(Contributions(init, raw), GroupContributions(g, raw), s);
      GroupContributionsTally(g, raw, s, weight);
      TallyInUnion(raw, s, GroupNames(init), g.registrationName, weight);
    } else {
      TallyInNoNames(raw, s, weight);
    }
  }

  lemma {:induction false} TallyInNoNames(recs: seq<Record>, s: string, weight: string -> int)
    ensures TallyIn(recs, s, {}, weight) == SportTally(0, 0)
  {
    if recs != [] {
      TallyInNoNames(recs[..|recs| - 1], s, weight);
    }
  }

  lemma {:induction false} TallyInAllNames(recs: seq<Record>, s: string, names: set<string>, weight: string -> int)
    requires forall i :: 0 <= i < |recs| ==> recs[i].registrationName in names
    ensures TallyIn(recs, s, names, weight) == SportRecordsTally(recs, s, weight)
  {
    if recs != [] {
      TallyInAllNames(recs[..|recs| - 1], s, names, weight);
    }
  }

  /** The loaded groups carry their own names, in order of first
      appearance, and their totals. */
  lemma AggregateNames(raw: seq<Record>)
    ensures forall i :: 0 <= i < |Aggregate(raw)| ==>
      && Aggregate(raw)[i].registrationName == FirstSeen(raw)[i]
      && Aggregate(raw)[i].total == GroupTotals(raw)(FirstSeen(raw)[i])
  {
    var groups := Aggregate(raw);
    var keys := FirstSeen(raw);
    forall i | 0 <= i < |groups|
      ensures groups[i].registrationName == keys[i]
      ensures groups[i].total == GroupTotals(raw)(keys[i])
    {
      GroupContents(raw, keys[i]);
    }
  }

  /** Hence no two loaded groups share a name, and every record's
      registration is one of them. */
  lemma AggregateCoversRecords(raw: seq<Record>)
    ensures forall i, j :: 0 <= i < j < |Aggregate(raw)| ==>
      Aggregate(raw)[i].registrationName != Aggregate(raw)[j].registrationName
    ensures forall i :: 0 <= i < |raw| ==> raw[i].registrationName in GroupNames(Aggregate(raw))
  {
    var groups := Aggregate(raw);
    var keys := FirstSeen(raw);
    AggregateNames(raw);
    assert Distinct(keys);
    forall i | 0 <= i < |raw|
      ensures raw[i].registrationName in GroupNames(groups)
    {
      var k := raw[i].registrationName;
      assert k in keys;
      var j :| 0 <= j < |keys| && keys[j] == k;
      assert groups[j].registrationName == k;
    }
  }

  /** After a load the sport chart's `count` of a sport is the number of
      records of that sport, and its `total` adds, for each such record, the
      total of the record's whole registration group: a group with several
      records of one sport is counted several times. */
  lemma PerSportAfterLoad(raw: seq<Record>, s: string)
    ensures TallyOf(Contributions(Aggregate(raw), raw), s) == SportRecordsTally(raw, s, GroupTotals(raw))
  {
    var groups := Aggregate(raw);
    var weight := GroupTotals(raw);
    AggregateNames(raw);
    AggregateCoversRecords(raw);
    ContributionsTally(groups, raw, s, weight);
    TallyInAllNames(raw, s, GroupNames(groups), weight);
  }

  /** A sport has an entry exactly when something was added to it. */
  lemma {:induction false} SportListedIffCounted(cs: seq<Contribution>, k: string)
    ensures k in SportOrder(cs) <==> TallyOf(cs, k).count > 0
  {
    if cs != [] {
      SportListedIffCounted(cs[..|cs| - 1], k);
      assert k in SportOrder(cs[..|cs| - 1]) ==> k in SportOrder(cs);
    }
  }

  lemma {:induction false} SportRecordsCounted(recs: seq<Record>, s: string, weight: string -> int)
    ensures SportRecordsTally(recs, s, weight).count > 0 <==> s in Sports(recs)
  {
    if recs != [] {
      SportRecordsCounted(recs[..|recs| - 1], s, weight);
    }
  }

  /** After a load the per-sport object has one entry per sport of the
      records, the same sports the summary card counts. */
  lemma SportKeysAfterLoad(raw: seq<Record>)
    ensures forall k :: k in SportOrder(Contributions(Aggregate(raw), raw)) <==> k in Sports(raw)
  {
    var cs := Contributions(Aggregate(raw), raw);
    forall k
      ensures k in SportOrder(cs) <==> k in Sports(raw)
    {
      SportListedIffCounted(cs, k);
      PerSportAfterLoad(raw, k);
      SportRecordsCounted(raw, k, GroupTotals(raw));
    }
  }

  /** An instance of `PerSportAfterLoad`, not a property of its own: two
      records of one registration, both soccer, with 3 and 4 members. The
      group has 7 members, yet soccer is charted with 14 members and a
      count of 2. */
  lemma PerSportDoubleCount()
    ensures var raw := [Record("A", "c1", "soccer", "", "", 3, 0, 0, 0, 3),
                        Record("A", "c2", "soccer", "", "", 4, 0, 0, 0, 4)];
      && SumField(raw, Total) == 7
      && TallyOf(Contributions(Aggregate(raw), raw), "soccer") == SportTally(14, 2)
  {
    var r1 := Record("A", "c1", "soccer", "", "", 3, 0, 0, 0, 3);
    var r2 := Record("A", "c2", "soccer", "", "", 4, 0, 0, 0, 4);
    var raw := [r1, r2];
    assert raw[..1] == [r1];
    assert [r1][..0] == [];
    assert SumField([r1], Total) == 3;
    assert SumField(raw, Total) == 7;
    assert RecordsOf([r1], "A") == [r1];
    assert RecordsOf(raw, "A") == raw;
    GroupContents(raw, "A");
    assert GroupFor(raw, "A").total == 7;
    var weight := GroupTotals(raw);
    assert weight("A") == GroupFor(raw, "A").total;
    assert SportRecordsTally([r1], "soccer", weight) == SportTally(7, 1);
    assert SportRecordsTally(raw, "soccer", weight) == SportTally(14, 2);
    PerSportAfterLoad(raw, "soccer");
  }

  /** A chart with two series over the same labels. */
  datatype SportSeries = SportSeries(labels: seq<string>, totals: seq<int>, counts: seq<int>)

  function EntryTotal(e: (string, SportTally)): int {
    e.1.total
  }

  /** The ten sports with the largest tallies, largest first
      (script.js:242-248). */
  function SportChart(bySport: OrderedMap<SportTally>): (c: SportSeries)
    requires bySport.Valid()
    ensures |c.labels| == |c.totals| == |c.counts| <= 10
  {
    var top := TopN(bySport.Entries(), EntryTotal, 10);
    SportSeries(seq(|top|, i requires 0 <= i < |top| => top[i].0),
      seq(|top|, i requires 0 <= i < |top| => top[i].1.total),
      seq(|top|, i requires 0 <= i < |top| => top[i].1.count as int))
  }

  /** The sport chart shows up to ten sports, largest total first. */
  lemma SportChartRanked(bySport: OrderedMap<SportTally>)
    requires bySport.Valid()
    ensures var c := SportChart(bySport);
      |c.labels| == if 10 < |bySport.keys| then 10 else |bySport.keys|
    ensures var c := SportChart(bySport);
      forall i, j :: 0 <= i < j < |c.totals| ==> c.totals[i] >= c.totals[j]
  {
    TopNSorted(bySport.Entries(), EntryTotal, 10);
  }

  /** The sports of a list of entries, in order. */
  function EntryLabels(es: seq<(string, SportTally)>): (labels: seq<string>)
    ensures |labels| == |es|
    ensures forall i :: 0 <= i < |es| ==> labels[i] == es[i].0
  {
    seq(|es|, i requires 0 <= i < |es| => es[i].0)
  }

  /** Sports of equal total keep the order of the per-sport object's keys
      (the sort at script.js:242-244 is stable): for each total, the chart
      shows the first sports of that total in key order. */
  lemma SportChartStable(bySport: OrderedMap<SportTally>, total: int)
    requires bySport.Valid()
    ensures SportChart(bySport).labels == EntryLabels(TopN(bySport.Entries(), EntryTotal, 10))
    ensures var es := bySport.Entries();
      var shown := EntryLabels(WithKey(TopN(es, EntryTotal, 10), EntryTotal, total));
      var all := EntryLabels(WithKey(es, EntryTotal, total));
      |shown| <= |all| && shown == all[..|shown|]
  {
    var es := bySport.Entries();
    var top := WithKey(TopN(es, EntryTotal, 10), EntryTotal, total);
    var ofAll := WithKey(es, EntryTotal, total);
    TopNStable(es, EntryTotal, 10, total);
    assert top == ofAll[..|top|];
    assert EntryLabels(top) == EntryLabels(ofAll)[..|top|];
  }

  /** Each bar of the sport chart carries its sport's tally. */
  lemma SportChartBars(bySport: OrderedMap<SportTally>)
    requires bySport.Valid()
    ensures var c := SportChart(bySport);
      forall i :: 0 <= i < |c.labels| ==>
        && c.labels[i] in bySport.byKey
        && c.totals[i] == bySport.byKey[c.labels[i]].total
        && c.counts[i] == bySport.byKey[c.labels[i]].count
  {
    var es := bySport.Entries();
    var top := TopN(es, EntryTotal, 10);
    var c := SportChart(bySport);
    TopNDrawn(es, EntryTotal, 10);
    forall i | 0 <= i < |c.labels|
      ensures c.labels[i] in bySport.byKey
      ensures c.totals[i] == bySport.byKey[c.labels[i]].total
      ensures c.counts[i] == bySport.byKey[c.labels[i]].count
    {
      assert top[i] in multiset(top);
      assert top[i] in multiset(es);
      var j :| 0 <= j < |es| && es[j] == top[i];
    }
  }

  /** A sport the chart leaves out has no larger total than any sport it
      shows. */
  lemma SportChartLeftOut(bySport: OrderedMap<SportTally>)
    requires bySport.Valid()
    ensures var c := SportChart(bySport);
      forall k, i :: k in bySport.byKey && k !in c.labels && 0 <= i < |c.totals| ==>
        bySport.byKey[k].total <= c.totals[i]
  {
    var es := bySport.Entries();
    var top := TopN(es, EntryTotal, 10);
    var c := SportChart(bySport);
    forall k, i | k in bySport.byKey && k !in c.labels && 0 <= i < |c.totals|
      ensures bySport.byKey[k].total <= c.totals[i]
    {
      var j :| 0 <= j < |bySport.keys| && bySport.keys[j] == k;
      LeftOutEntry(bySport, es, top, c, j);
    }
  }

  lemma LeftOutEntry(bySport: OrderedMap<SportTally>, es: seq<(string, SportTally)>, top: seq<(string, SportTally)>, c: SportSeries, j: nat)
    requires bySport.Valid() && es == bySport.Entries() && top == TopN(es, EntryTotal, 10) && c == SportChart(bySport)
    requires j < |bySport.keys| && bySport.keys[j] !in c.labels
    ensures forall i :: 0 <= i < |c.totals| ==> es[j].1.total <= c.totals[i]
  {
    var e := es[j];
    forall m | 0 <= m < |top|
      ensures top[m] != e
    {
      assert c.labels[m] == top[m].0;
    }
    assert e in multiset(es) - multiset(top);
    TopNLeftOut(es, EntryTotal, 10, e);
  }

  // ---------------------------------------------------------------------
  // All three charts

  datatype ChartsView = ChartsView(top10: BarSeries, bySport: SportSeries, distribution: BarSeries)

  /** The charts for the groups `groups` loaded from the records `raw`. */
  function ChartsFor(groups: seq<GroupStats>, raw: seq<Record>): (v: ChartsView)
    ensures |v.top10.labels| <= 10 && |v.distribution.labels| <= 15 && |v.bySport.labels| <= 10
  {
    ChartsView(Top10Chart(groups), SportChart(SportTallies(Contributions(groups, raw))), DistributionChart(groups))
  }

  /** `updateCharts` (script.js:176-180). */
  method RenderCharts(groups: seq<GroupStats>, raw: seq<Record>) returns (v: ChartsView)
    ensures v == ChartsFor(groups, raw)
  {
    var bySport := MembersBySport(groups, raw);
    DescribesUnique(bySport, SportTallies(Contributions(groups, raw)), Contributions(groups, raw));
    v := ChartsView(Top10Chart(groups), SportChart(bySport), DistributionChart(groups));
  }
}
