/** The page state of csv-load/script.js (lines 2-7) and the handlers that
    change it: loading a file (`parseCSV`, `updateDashboard`), the search
    box, the page-size selector and the two paging buttons. What is on the
    screen is kept as the last summary, charts and table rendered. */
module Dashboard {
  import opened Text
  import opened OrderedMaps
  import opened Groups
  import opened Csv
  import opened Search
  import opened Paging
  import opened Charts

  /** What a load reports in the upload status line. */
  datatype LoadStatus =
    | HeaderMissing                             // `lines[0]` is undefined and the handler throws
    | NoRecords                                 // the failure message
    | Loaded(records: nat, registrations: nat)  // the success message and its two counts

  /** Every group object is consistent and is filed under its own name (so
      two names never share an object). */
  ghost predicate GroupsValid(m: OrderedMap<RegistrationGroupStats>)
    reads m.byKey.Values
  {
    && m.Valid()
    && forall k :: k in m.byKey ==> m.byKey[k].Valid() && m.byKey[k].registrationName == k
  }

  /** Every group value is consistent and is filed under its own name. */
  ghost predicate Filed(m: OrderedMap<GroupStats>) {
    && m.Valid()
    && forall k :: k in m.byKey ==> m.byKey[k].Balanced() && m.byKey[k].registrationName == k
  }

  /** The values the group objects of `m` hold at this moment, under the
      same keys in the same order. */
  function ValuesOf(m: OrderedMap<RegistrationGroupStats>): (v: OrderedMap<GroupStats>)
    requires m.Valid()
    reads m.byKey.Values
    ensures v.keys == m.keys
    ensures forall k :: k in v.byKey <==> k in m.byKey
    ensures forall k :: k in m.byKey ==> v.byKey[k] == m.byKey[k].Value()
  {
    OrderedMap(m.keys, map k | k in m.byKey :: m.byKey[k].Value())
  }

  /** `m` holds, for every registration name of `raw`, a valid object whose
      value is that group's value after `raw`, listed in order of first
      appearance. */
  ghost predicate Holds(m: OrderedMap<RegistrationGroupStats>, raw: seq<Record>)
    reads m.byKey.Values
  {
    && GroupsValid(m)
    && m.keys == FirstSeen(raw)
    && forall k :: k in m.byKey ==> m.byKey[k].Value() == GroupFor(raw, k)
  }

  /** What the objects hold is the aggregation of `raw`, group by group. */
  lemma HoldsAggregate(m: OrderedMap<RegistrationGroupStats>, raw: seq<Record>)
    requires Holds(m, raw)
    ensures Filed(ValuesOf(m)) && ValuesOf(m).Values() == Aggregate(raw)
  {
    var v := ValuesOf(m);
    assert v.Valid();
    forall k | k in v.byKey
      ensures v.byKey[k].Balanced() && v.byKey[k].registrationName == k
    {
      assert m.byKey[k].Valid();
    }
    var vs, agg := v.Values(), Aggregate(raw);
    forall i | 0 <= i < |vs|
      ensures vs[i] == agg[i]
    {
      assert m.keys[i] in m.byKey;
    }
  }

  /** Lines 115-117 of the `parseCSV` loop body: a record whose name has
      no group yet gets a new, empty one at the end of the dictionary. */
  method EnsureGroup(m: OrderedMap<RegistrationGroupStats>, r: Record, ghost before: seq<Record>)
    returns (m': OrderedMap<RegistrationGroupStats>)
    requires Holds(m, before)
    ensures r.registrationName in m'.byKey
    ensures GroupsValid(m') && m'.keys == FirstSeen(before + [r])
    ensures forall k :: k in m'.byKey ==> m'.byKey[k].Value() == GroupFor(before, k)
    ensures forall k :: k in m'.byKey ==> fresh(m'.byKey[k]) || (k in m.byKey && m'.byKey[k] == m.byKey[k])
  {
    var name := r.registrationName;
    FirstSeenSnoc(before, r);
    m' := m;
    if name !in m.byKey {
      assert name !in Names(before);
      NoRecordsOf(before, name);
      var created := new RegistrationGroupStats(name);
      m' := m.Put(name, created);
      forall k | k in m'.byKey
        ensures m'.byKey[k].Valid() && m'.byKey[k].registrationName == k
        ensures m'.byKey[k].Value() == GroupFor(before, k)
      {
        if k != name {
          assert m'.byKey[k] == m.byKey[k];
        }
      }
    }
  }

  /** Lines 118-119 on one group object: `addMembers` with the record's
      four counts, then its club pushed onto `dantaiList`. */
  method AbsorbRecord(group: RegistrationGroupStats, r: Record)
    requires group.Valid()
    modifies group
    ensures group.Valid() && group.Value() == Absorb(old(group.Value()), r)
  {
    group.AddMembers(r.boysElementary, r.girlsElementary, r.boysMiddle, r.girlsMiddle);
    ghost var added := group.Value();
    group.dantaiList := group.dantaiList + [r.dantaiName];
    assert group.Value() == added.(dantaiList := added.dantaiList + [r.dantaiName]);
  }

  /** Lines 118-119: the group of the record's name takes the record's
      counts and club. Only that group object changes. */
  method AbsorbInto(m: OrderedMap<RegistrationGroupStats>, r: Record, ghost before: seq<Record>)
    requires r.registrationName in m.byKey
    requires GroupsValid(m) && m.keys == FirstSeen(before + [r])
    requires forall k :: k in m.byKey ==> m.byKey[k].Value() == GroupFor(before, k)
    modifies m.byKey[r.registrationName]
    ensures Holds(m, before + [r])
  {
    var name := r.registrationName;
    var group := m.byKey[name];
    assert forall k :: k in m.byKey && k != name ==> m.byKey[k] != group;
    label Absorbing:
    AbsorbRecord(group, r);
    GroupForSnoc(before, r, name);
    forall k | k in m.byKey
      ensures m.byKey[k].Valid() && m.byKey[k].registrationName == k
      ensures m.byKey[k].Value() == GroupFor(before + [r], k)
    {
      if k != name {
        GroupForSnoc(before, r, k);
        assert m.byKey[k].Value() == old@Absorbing(m.byKey[k].Value());
      }
    }
  }

  /** One pass of the `parseCSV` loop (script.js:86-120): a line with
      enough fields becomes a record, pushed onto the records and absorbed
      into its group; any other line is skipped. */
  method LoadRow(raw: seq<Record>, groups: OrderedMap<RegistrationGroupStats>, row: string)
    returns (raw': seq<Record>, groups': OrderedMap<RegistrationGroupStats>)
    requires Holds(groups, raw)
    modifies groups.byKey.Values
    ensures raw' == raw + (if ParseRow(row).Some? then [ParseRow(row).value] else [])
    ensures Holds(groups', raw')
    ensures forall k :: k in groups'.byKey ==> fresh(groups'.byKey[k]) || (k in groups.byKey && groups'.byKey[k] == groups.byKey[k])
  {
    raw', groups' := raw, groups;
    var parsed := ParseRow(row);
    match parsed {
      case Some(r) =>
        groups' := EnsureGroup(groups, r, raw);
        AbsorbInto(groups', r, raw);
        raw' := raw + [r];
      case None =>
    }
  }

  /** The loop of `parseCSV` (script.js:85-121) over the lines after the
      header, building the records and the groups. */
  method LoadRows(rows: seq<string>) returns (raw: seq<Record>, groups: OrderedMap<RegistrationGroupStats>)
    ensures raw == ParseRecords(rows)
    ensures groups.Valid() && Filed(ValuesOf(groups)) && ValuesOf(groups).Values() == Aggregate(raw)
    ensures |groups.keys| == |Names(raw)|
    ensures forall k :: k in groups.byKey ==> fresh(groups.byKey[k])
  {
    raw := [];
    groups := Empty();
    var i := 0;
    while i < |rows|
      invariant 0 <= i <= |rows|
      invariant raw == ParseRecords(rows[..i])
      invariant Holds(groups, raw)
      invariant forall k :: k in groups.byKey ==> fresh(groups.byKey[k])
    {
      ParseRecordsPrefix(rows, i);
      raw, groups := LoadRow(raw, groups, rows[i]);
      i := i + 1;
    }
    assert rows[..i] == rows;
    HoldsAggregate(groups, raw);
    GroupCount(raw);
  }

  /** The values of a dictionary whose groups are filed under their own
      names carry distinct names. */
  lemma FiledDistinct(m: OrderedMap<GroupStats>)
    requires Filed(m)
    ensures DistinctNames(m.Values())
    ensures forall g :: g in m.Values() ==> g.Balanced()
  {
    var vs := m.Values();
    forall i | 0 <= i < |vs|
      ensures vs[i].registrationName == m.keys[i] && vs[i].Balanced()
    {
      assert m.keys[i] in m.byKey;
    }
  }

  /** `groups.forEach(g => temp[g.registrationName] = g)` into an empty
      object (script.js:422-425): with distinct names, the new dictionary
      lists the groups in the order given. */
  method Reindex(groups: seq<GroupStats>) returns (temp: OrderedMap<GroupStats>)
    requires DistinctNames(groups)
    requires forall g :: g in groups ==> g.Balanced()
    ensures Filed(temp) && temp.Values() == groups
  {
    temp := Empty();
    var i := 0;
    while i < |groups|
      invariant 0 <= i <= |groups|
      invariant Filed(temp) && temp.Values() == groups[..i]
      invariant |temp.keys| == i && forall j :: 0 <= j < i ==> temp.keys[j] == groups[j].registrationName
    {
      var group := groups[i];
      assert group.registrationName !in temp.keys;
      PutNewValues(temp, group.registrationName, group);
      temp := temp.Put(group.registrationName, group);
      assert groups[..i + 1] == groups[..i] + [group];
      i := i + 1;
    }
    assert groups[..i] == groups;
  }

  class Dashboard {
    var rawData: seq<Record>
    var filteredData: seq<Record>
    /** The groups by registration name. Nothing changes a group object
        once the load has built it, so the dashboard keeps their values. */
    var aggregatedData: OrderedMap<GroupStats>
    var currentPage: int
    var itemsPerPage: int
    /** The last summary cards, charts and table rendered; `None` until the
        first render. */
    var summary: Option<Summary>
    var charts: Option<ChartsView>
    var table: Option<TableView>

    ghost predicate Valid()
      reads this
    {
      && Filed(aggregatedData)
      && |aggregatedData.keys| <= |filteredData|
      && currentPage >= 1
      && itemsPerPage >= 1
    }

    /** `Object.values(aggregatedData)`. */
    function Groups(): (gs: seq<GroupStats>)
      requires aggregatedData.Valid()
      reads this
      ensures |gs| == |aggregatedData.keys|
      ensures Valid() ==> |gs| <= |filteredData| && forall g :: g in gs ==> g.Balanced()
    {
      aggregatedData.Values()
    }

    /** The initial state: nothing loaded, page 1, 25 rows per page. */
    constructor ()
      ensures Valid()
      ensures rawData == [] && filteredData == [] && aggregatedData.keys == []
      ensures currentPage == 1 && itemsPerPage == 25
      ensures summary == None && charts == None && table == None
    {
      rawData := [];
      filteredData := [];
      aggregatedData := Empty();
      currentPage := 1;
      itemsPerPage := 25;
      summary := None;
      charts := None;
      table := None;
    }

    /** `updateTable` (script.js:367-396): the rows of the current page and
        the pagination line. */
    method UpdateTable()
      requires Valid()
      modifies this
      ensures Valid()
      ensures table == Some(Table(Groups(), currentPage, itemsPerPage))
      ensures rawData == old(rawData) && filteredData == old(filteredData)
      ensures aggregatedData == old(aggregatedData)
      ensures currentPage == old(currentPage) && itemsPerPage == old(itemsPerPage)
      ensures summary == old(summary) && charts == old(charts)
    {
      table := Some(Table(Groups(), currentPage, itemsPerPage));
    }

    /** The summary cards, the charts and the table on screen are the ones
        the current state renders. */
    ghost predicate Rendered()
      requires Valid()
      reads this
    {
      && summary == Some(SummaryCards(Groups(), rawData))
      && charts == Some(ChartsFor(Groups(), rawData))
      && table == Some(Table(Groups(), currentPage, itemsPerPage))
    }

    /** `updateDashboard` (script.js:137-152): summary cards, charts, table. */
    method UpdateDashboard()
      requires Valid()
      modifies this
      ensures Valid() && Rendered()
      ensures rawData == old(rawData) && filteredData == old(filteredData)
      ensures aggregatedData == old(aggregatedData)
      ensures currentPage == old(currentPage) && itemsPerPage == old(itemsPerPage)
    {
      var groups := Groups();
      var view := RenderCharts(groups, rawData);
      summary, charts := Some(SummaryCards(groups, rawData)), Some(view);
      UpdateTable();
    }

    /** The end of `parseCSV` (script.js:123-133): the records and groups
        just built replace the old ones, `filteredData` becomes a copy of
        the records, and the dashboard is rendered when there is at least
        one record. */
    method Publish(raw: seq<Record>, groups: OrderedMap<GroupStats>) returns (status: LoadStatus)
      requires Valid() && Filed(groups) && |groups.keys| <= |raw|
      modifies this
      ensures Valid()
      ensures rawData == raw && filteredData == raw && aggregatedData == groups
      ensures currentPage == old(currentPage) && itemsPerPage == old(itemsPerPage)
      ensures status == if raw == [] then NoRecords else Loaded(|raw|, |groups.keys|)
      ensures raw != [] ==> Rendered()
      ensures raw == [] ==> summary == old(summary) && charts == old(charts) && table == old(table)
    {
      rawData, aggregatedData := raw, groups;
      filteredData := raw;
      if |raw| > 0 {
        status := Loaded(|raw|, |groups.keys|);
        UpdateDashboard();
      } else {
        status := NoRecords;
      }
    }

    /** `parseCSV` (script.js:78-134): the text is split into non-blank
        lines; with none, `lines[0]` is undefined and the handler throws
        before changing anything. Otherwise the records and groups are
        rebuilt from every line after the header, `filteredData` is reset
        to the records, and, when there is at least one record, the whole
        dashboard is rendered again. */
    method ParseCsv(text: string) returns (status: LoadStatus)
      requires Valid()
      modifies this
      ensures Valid()
      ensures AllWhitespace(text) ==> status == HeaderMissing && unchanged(this)
      ensures !AllWhitespace(text) ==>
        && rawData == ParseText(text).value
        && filteredData == rawData
        && Groups() == Aggregate(rawData)
        && status == (if rawData == [] then NoRecords else Loaded(|rawData|, |Names(rawData)|))
        && currentPage == old(currentPage) && itemsPerPage == old(itemsPerPage)
      ensures !AllWhitespace(text) && rawData != [] ==> Rendered()
      ensures !AllWhitespace(text) && rawData == [] ==>
        summary == old(summary) && charts == old(charts) && table == old(table)
    {
      var lines := NonBlankLines(text);
      NoLinesIffWhitespace(text);
      if lines == [] {
        return HeaderMissing;
      }
      var raw, groups := LoadRows(lines[1..]);
      NamesBound(raw);
      status := Publish(raw, ValuesOf(groups));
    }

    /** The search box (script.js:409-436): the groups now in
        `aggregatedData` are filtered by the term and replace it, so a later
        search starts from this result; the table goes back to page 1. */
    method Search(term: string)
      requires Valid()
      modifies this
      ensures Valid()
      ensures Groups() == SearchGroups(old(Groups()), term)
      ensures currentPage == 1
      ensures table == Some(Table(Groups(), 1, itemsPerPage))
      ensures rawData == old(rawData) && filteredData == old(filteredData)
      ensures itemsPerPage == old(itemsPerPage) && summary == old(summary) && charts == old(charts)
    {
      var searchTerm := ToLower(term);
      var registrationArray := Groups();
      var filteredRegistrations := Filter(registrationArray, searchTerm);
      FiledDistinct(aggregatedData);
      FilterDistinct(registrationArray, searchTerm);
      var temp := Reindex(filteredRegistrations);
      aggregatedData := temp;
      currentPage := 1;
      UpdateTable();
    }

    /** The page-size selector (script.js:439-445); the select offers only
        positive sizes. */
    method SetItemsPerPage(n: int)
      requires Valid() && n >= 1
      modifies this
      ensures Valid()
      ensures itemsPerPage == n && currentPage == 1
      ensures table == Some(Table(Groups(), 1, n))
      ensures aggregatedData == old(aggregatedData) && rawData == old(rawData) && filteredData == old(filteredData)
      ensures summary == old(summary) && charts == old(charts)
    {
      itemsPerPage := n;
      currentPage := 1;
      UpdateTable();
    }

    /** The "previous" button (script.js:448-453). */
    method PrevPage()
      requires Valid()
      modifies this
      ensures Valid()
      ensures currentPage == PrevPageOf(old(currentPage))
      ensures table == if currentPage != old(currentPage) then Some(Table(Groups(), currentPage, itemsPerPage)) else old(table)
      ensures aggregatedData == old(aggregatedData) && rawData == old(rawData) && filteredData == old(filteredData)
      ensures itemsPerPage == old(itemsPerPage) && summary == old(summary) && charts == old(charts)
    {
      if currentPage > 1 {
        currentPage := currentPage - 1;
        UpdateTable();
      }
    }

    /** The "next" button (script.js:455-461): the bound is the page count
        of the loaded records, not of the groups in the table. As there are
        never more groups than records, it reaches every page of the table. */
    method NextPage()
      requires Valid()
      modifies this
      ensures Valid()
      ensures currentPage == NextPageOf(old(currentPage), |filteredData|, itemsPerPage)
      ensures old(currentPage) < TotalPages(|Groups()|, itemsPerPage) ==> currentPage == old(currentPage) + 1
      ensures table == if currentPage != old(currentPage) then Some(Table(Groups(), currentPage, itemsPerPage)) else old(table)
      ensures aggregatedData == old(aggregatedData) && rawData == old(rawData) && filteredData == old(filteredData)
      ensures itemsPerPage == old(itemsPerPage) && summary == old(summary) && charts == old(charts)
    {
      if currentPage < TotalPages(|Groups()|, itemsPerPage) {
        NextReachesEveryPage(|Groups()|, |filteredData|, currentPage, itemsPerPage);
      }
      var totalPages := TotalPages(|filteredData|, itemsPerPage);
      if currentPage < totalPages {
        currentPage := currentPage + 1;
        UpdateTable();
      }
    }
  }
}
