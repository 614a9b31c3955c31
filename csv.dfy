/** The pure part of `parseCSV` (csv-load/script.js:78-121): text to
    lines, lines to records, and the left-to-right fold of the records into
    the insertion-ordered `aggregatedData` dictionary. */
module Csv {
  import opened Text
  import opened OrderedMaps
  import opened Groups

  datatype Option<T> = None | Some(value: T)

  /** One parsed data line (the object pushed onto `rawData`). */
  datatype Record = Record(
    registrationName: string,
    dantaiName: string,
    sportType: string,
    frequency: string,
    facility: string,
    boysElementary: int,
    girlsElementary: int,
    boysMiddle: int,
    girlsMiddle: int,
    total: int)
  {
    predicate TotalIsSum() {
      total == boysElementary + girlsElementary + boysMiddle + girlsMiddle
    }
  }

  /** Registration name, club, sport, frequency, facility, then the four
      member counts. */
  const MinFields := 9

  /** No white space at either end. */
  predicate Trimmed(s: string) {
    s == [] || (!IsWhitespace(s[0]) && !IsWhitespace(s[|s| - 1]))
  }

  /** What every record built from a line satisfies. */
  predicate WellFormed(r: Record) {
    && r.TotalIsSum()
    && Trimmed(r.registrationName) && Trimmed(r.dantaiName) && Trimmed(r.sportType)
    && Trimmed(r.frequency) && Trimmed(r.facility)
    && ',' !in r.registrationName && ',' !in r.dantaiName && ',' !in r.sportType
    && ',' !in r.frequency && ',' !in r.facility
  }

  /** `lines.filter(line => line.trim())`. */
  function DropBlank(lines: seq<string>): (r: seq<string>)
    ensures |r| <= |lines|
    ensures forall l :: l in r <==> l in lines && !IsBlank(l)
  {
    if lines == [] then []
    else if IsBlank(lines[0]) then DropBlank(lines[1..])
    else [lines[0]] + DropBlank(lines[1..])
  }

  /** `text.split("\n").filter(line => line.trim())`. */
  function NonBlankLines(text: string): (lines: seq<string>)
    ensures |lines| <= 1 + Occurrences(text, '\n')
    ensures forall l :: l in lines ==> !IsBlank(l) && '\n' !in l
  {
    DropBlank(Split(text, '\n'))
  }

  /** The filter works line by line: over two blocks of lines it keeps the
      lines of the first block, then those of the second, each in order. */
  lemma {:induction false} DropBlankAppend(a: seq<string>, b: seq<string>)
    ensures DropBlank(a + b) == DropBlank(a) + DropBlank(b)
  {
    if a == [] {
      assert a + b == b;
    } else {
      assert (a + b)[1..] == a[1..] + b;
      DropBlankAppend(a[1..], b);
    }
  }

  /** One line is kept exactly when it is not blank. */
  lemma DropBlankOne(l: string)
    ensures DropBlank([l]) == if IsBlank(l) then [] else [l]
  {
    assert [l][1..] == [];
  }

  /** A text written one line per element gives back its non-blank lines,
      in order and each as often as it occurs. */
  lemma NonBlankLinesJoin(lines: seq<string>)
    requires lines != [] && forall i :: 0 <= i < |lines| ==> '\n' !in lines[i]
    ensures NonBlankLines(Join(lines, "\n")) == DropBlank(lines)
  {
    SplitJoin(lines, '\n');
  }

  /** A text of one line gives that line, unless it is blank. */
  lemma NonBlankLinesOne(s: string)
    requires '\n' !in s
    ensures NonBlankLines(s) == if IsBlank(s) then [] else [s]
  {
    SplitNoSeparator(s, '\n');
    DropBlankOne(s);
  }

  /** A comma-free piece of a line, trimmed, stays comma-free. */
  lemma TrimKeepsCommaFree(s: string)
    requires ',' !in s
    ensures ',' !in Trim(s)
  {
    var t := TrimStart(s);
    SliceLacks(s, ',', |s| - |t|, |s|);
    assert s[|s| - |t|..|s|] == t;
    var r := TrimEnd(t);
    SliceLacks(t, ',', 0, |r|);
    assert t[0..|r|] == r;
  }

  lemma SliceLacks(s: string, c: char, lo: nat, hi: nat)
    requires lo <= hi <= |s| && c !in s
    ensures c !in s[lo..hi]
  {
  }

  /** One line of the loop body (script.js:86-98): a line with at least nine
      comma-separated fields becomes a record with its five text fields
      trimmed and its four counts read as numbers; any other line is
      dropped. */
  function ParseRow(line: string): (r: Option<Record>)
    ensures r.Some? <==> Occurrences(line, ',') >= MinFields - 1
    ensures r.Some? ==> WellFormed(r.value)
  {
    var values := Split(line, ',');
    if |values| >= MinFields then Some(RecordOf(values)) else None
  }

  /** The record of the fields of a line: the five text fields trimmed, the
      four counts read as numbers, and their sum. */
  function RecordOf(values: seq<string>): (r: Record)
    requires |values| >= MinFields
    requires CommaFree(values)
    ensures WellFormed(r)
    ensures TextFields(r) == [Trim(values[0]), Trim(values[1]), Trim(values[2]), Trim(values[3]), Trim(values[4])]
  {
    TrimKeepsCommaFree(values[0]);
    TrimKeepsCommaFree(values[1]);
    TrimKeepsCommaFree(values[2]);
    TrimKeepsCommaFree(values[3]);
    TrimKeepsCommaFree(values[4]);
    var be := ParseNum(values[5]);
    var ge := ParseNum(values[6]);
    var bm := ParseNum(values[7]);
    var gm := ParseNum(values[8]);
    Record(Trim(values[0]), Trim(values[1]), Trim(values[2]), Trim(values[3]),
      Trim(values[4]), be, ge, bm, gm, be + ge + bm + gm)
  }

  /** No field holds a comma. */
  predicate CommaFree(values: seq<string>) {
    forall i :: 0 <= i < |values| ==> ',' !in values[i]
  }

  /** A text field the way every record holds it. */
  predicate CleanText(s: string) {
    Trimmed(s) && ',' !in s
  }

  /** Round trip: a line written from five trimmed, comma-free text fields
      and four counts in decimal reads back as the record of exactly those
      fields and counts. */
  lemma ParseRowRoundTrip(name: string, club: string, sport: string, frequency: string, facility: string,
                          be: nat, ge: nat, bm: nat, gm: nat)
    requires CleanText(name) && CleanText(club) && CleanText(sport)
    requires CleanText(frequency) && CleanText(facility)
    ensures ParseRow(Join([name, club, sport, frequency, facility, Decimal(be), Decimal(ge), Decimal(bm), Decimal(gm)], ","))
      == Some(Record(name, club, sport, frequency, facility, be, ge, bm, gm, be + ge + bm + gm))
  {
    var d1, d2, d3, d4 := Decimal(be), Decimal(ge), Decimal(bm), Decimal(gm);
    DigitsLackComma(d1);
    DigitsLackComma(d2);
    DigitsLackComma(d3);
    DigitsLackComma(d4);
    var parts := NineFields(name, club, sport, frequency, facility, d1, d2, d3, d4);
    ParseRowOfJoin(parts);
    RecordOfFields(parts, be, ge, bm, gm);
  }

  /** Nine comma-free fields in a row. */
  function NineFields(a: string, b: string, c: string, d: string, e: string,
                      f: string, g: string, h: string, k: string): (parts: seq<string>)
    requires ',' !in a && ',' !in b && ',' !in c && ',' !in d && ',' !in e
    requires ',' !in f && ',' !in g && ',' !in h && ',' !in k
    ensures parts == [a, b, c, d, e, f, g, h, k]
    ensures CommaFree(parts)
  {
    [a, b, c, d, e, f, g, h, k]
  }

  /** Fields joined with commas parse as the record of those fields. */
  lemma ParseRowOfJoin(parts: seq<string>)
    requires |parts| >= MinFields
    requires CommaFree(parts)
    ensures ParseRow(Join(parts, ",")) == Some(RecordOf(parts))
  {
    SplitJoin(parts, ',');
    ParseRowOfFields(Join(parts, [',']));
  }

  /** A line with enough fields gives the record of its fields. */
  lemma ParseRowOfFields(line: string)
    requires |Split(line, ',')| >= MinFields
    ensures ParseRow(line) == Some(RecordOf(Split(line, ',')))
  {
  }

  /** The five text fields of a record, in column order. */
  function TextFields(r: Record): (fields: seq<string>)
    ensures |fields| == 5
  {
    [r.registrationName, r.dantaiName, r.sportType, r.frequency, r.facility]
  }

  /** White space around a text field is dropped: a field written as
      `before + t + after`, with white space on both sides of a trimmed
      `t`, reads back as `t`. */
  lemma ParseRowPadded(parts: seq<string>, k: nat, before: string, t: string, after: string)
    requires |parts| >= MinFields && CommaFree(parts) && k < 5
    requires parts[k] == before + t + after
    requires AllWhitespace(before) && AllWhitespace(after) && Trimmed(t)
    ensures ParseRow(Join(parts, ",")).Some?
    ensures TextFields(ParseRow(Join(parts, ",")).value)[k] == t
  {
    ParseRowOfJoin(parts);
    PickField(TextFields(RecordOf(parts)), parts, k);
    TrimPadded(before, t, after);
  }

  lemma PickField(fields: seq<string>, values: seq<string>, k: nat)
    requires |values| >= 5 && k < 5
    requires fields == [Trim(values[0]), Trim(values[1]), Trim(values[2]), Trim(values[3]), Trim(values[4])]
    ensures fields[k] == Trim(values[k])
  {
    if k == 0 {
    } else if k == 1 {
    } else if k == 2 {
    } else if k == 3 {
    } else {
      assert k == 4;
    }
  }

  lemma RecordOfFields(parts: seq<string>, be: nat, ge: nat, bm: nat, gm: nat)
    requires |parts| == MinFields && CommaFree(parts)
    requires Trimmed(parts[0]) && Trimmed(parts[1]) && Trimmed(parts[2]) && Trimmed(parts[3]) && Trimmed(parts[4])
    requires parts[5] == Decimal(be) && parts[6] == Decimal(ge) && parts[7] == Decimal(bm) && parts[8] == Decimal(gm)
    ensures RecordOf(parts) == Record(parts[0], parts[1], parts[2], parts[3], parts[4], be, ge, bm, gm, be + ge + bm + gm)
  {
    TrimTrimmed(parts[0]);
    TrimTrimmed(parts[1]);
    TrimTrimmed(parts[2]);
    TrimTrimmed(parts[3]);
    TrimTrimmed(parts[4]);
    ParseDecimal(parts[5], be);
    ParseDecimal(parts[6], ge);
    ParseDecimal(parts[7], bm);
    ParseDecimal(parts[8], gm);
    RecordOfKnown(parts, be, ge, bm, gm);
  }

  /** The record of fields whose text is already trimmed and whose counts
      are known. */
  lemma RecordOfKnown(values: seq<string>, be: int, ge: int, bm: int, gm: int)
    requires |values| == MinFields && CommaFree(values)
    requires Trim(values[0]) == values[0] && Trim(values[1]) == values[1] && Trim(values[2]) == values[2]
    requires Trim(values[3]) == values[3] && Trim(values[4]) == values[4]
    requires ParseNum(values[5]) == be && ParseNum(values[6]) == ge
    requires ParseNum(values[7]) == bm && ParseNum(values[8]) == gm
    ensures RecordOf(values) == Record(values[0], values[1], values[2], values[3], values[4], be, ge, bm, gm, be + ge + bm + gm)
  {
    var r := RecordOf(values);
    assert r.boysElementary == be && r.girlsElementary == ge;
    assert r.boysMiddle == bm && r.girlsMiddle == gm;
    assert r.registrationName == values[0] && r.dantaiName == values[1];
    assert r.sportType == values[2] && r.frequency == values[3] && r.facility == values[4];
  }

  lemma DigitsLackComma(d: string)
    requires forall i :: 0 <= i < |d| ==> IsDigit(d[i])
    ensures ',' !in d
  {
  }

  /** `trim` leaves a trimmed string as it is. */
  lemma TrimTrimmed(s: string)
    requires Trimmed(s)
    ensures Trim(s) == s
  {
    if s != [] {
      assert TrimStart(s) == s;
      assert s[..|s|] == s;
    }
  }

  /** Applies `f` to every element and keeps the `Some` results, in order. */
  function FilterMap<A, B>(xs: seq<A>, f: A -> Option<B>): (ys: seq<B>)
    ensures |ys| <= |xs|
  {
    if xs == [] then []
    else
      var prev := FilterMap(xs[..|xs| - 1], f);
      match f(xs[|xs| - 1])
      case Some(y) => prev + [y]
      case None => prev
  }

  /** The records the loop pushes onto `rawData`, one per accepted line, in
      line order. */
  function ParseRecords(lines: seq<string>): (recs: seq<Record>)
    ensures |recs| <= |lines|
  {
    FilterMap(lines, ParseRow)
  }

  /** Every record pushed has trimmed, comma-free text fields and a total
      that is the sum of its four counts. */
  lemma ParseRecordsWellFormed(lines: seq<string>)
    ensures forall i :: 0 <= i < |ParseRecords(lines)| ==> WellFormed(ParseRecords(lines)[i])
  {
    var recs := ParseRecords(lines);
    FilterMapMembers(lines, ParseRow);
    forall i | 0 <= i < |recs|
      ensures WellFormed(recs[i])
    {
      assert recs[i] in recs;
      var l :| l in lines && ParseRow(l) == Some(recs[i]);
    }
  }

  /** Records of `parseCSV`: `None` where `lines[0].split` throws because the
      text has no non-blank line; otherwise the records of every non-blank
      line but the first (the header). */
  function ParseText(text: string): (r: Option<seq<Record>>)
    ensures r.None? <==> AllWhitespace(text)
  {
    var lines := NonBlankLines(text);
    NoLinesIffWhitespace(text);
    if lines == [] then None else Some(ParseRecords(lines[1..]))
  }

  // ---------------------------------------------------------------------
  // Properties of the parser

  lemma {:induction false} WhitespaceJoin(parts: seq<string>)
    ensures AllWhitespace(Join(parts, "\n")) <==> forall i :: 0 <= i < |parts| ==> AllWhitespace(parts[i])
  {
    if |parts| > 1 {
      WhitespaceJoin(parts[1..]);
      var rest := Join(parts[1..], "\n");
      assert Join(parts, "\n") == parts[0] + "\n" + rest;
      assert forall i :: 0 <= i < |parts[0]| ==> Join(parts, "\n")[i] == parts[0][i];
      assert forall i :: 0 <= i < |rest| ==> Join(parts, "\n")[|parts[0]| + 1 + i] == rest[i];
      assert forall i :: 1 <= i < |parts| ==> parts[i] == parts[1..][i - 1];
    }
  }

  lemma DropBlankEmpty(lines: seq<string>)
    ensures DropBlank(lines) == [] <==> forall i :: 0 <= i < |lines| ==> AllWhitespace(lines[i])
  {
    var kept := DropBlank(lines);
    forall i | 0 <= i < |lines|
      ensures IsBlank(lines[i]) <==> AllWhitespace(lines[i])
    {
      BlankIffAllWhitespace(lines[i]);
    }
    if kept != [] {
      assert kept[0] in lines && !IsBlank(kept[0]);
    } else {
      forall i | 0 <= i < |lines|
        ensures IsBlank(lines[i])
      {
        assert lines[i] !in kept;
      }
    }
  }

  /** A text has no non-blank line exactly when it is all white space. */
  lemma NoLinesIffWhitespace(text: string)
    ensures NonBlankLines(text) == [] <==> AllWhitespace(text)
  {
    JoinSplit(text, '\n');
    WhitespaceJoin(Split(text, '\n'));
    DropBlankEmpty(Split(text, '\n'));
  }

  /** Mapping is element by element: the results for two blocks are the
      results for the first followed by those for the second. */
  lemma {:induction false} FilterMapAppend<A, B>(a: seq<A>, b: seq<A>, f: A -> Option<B>)
    ensures FilterMap(a + b, f) == FilterMap(a, f) + FilterMap(b, f)
  {
    if b == [] {
      assert a + b == a;
    } else {
      FilterMapAppend(a, b[..|b| - 1], f);
      assert (a + b)[..|a + b| - 1] == a + b[..|b| - 1];
    }
  }

  /** Every result comes from an element that maps to it, and every element
      that maps to `Some` contributes its value. */
  lemma {:induction false} FilterMapMembers<A, B>(xs: seq<A>, f: A -> Option<B>)
    ensures forall y :: y in FilterMap(xs, f) ==> exists x :: x in xs && f(x) == Some(y)
    ensures forall x :: x in xs && f(x).Some? ==> f(x).value in FilterMap(xs, f)
  {
    if xs != [] {
      var init := xs[..|xs| - 1];
      FilterMapMembers(init, f);
      assert xs == init + [xs[|xs| - 1]];
      forall y | y in FilterMap(xs, f)
        ensures exists x :: x in xs && f(x) == Some(y)
      {
        if y in FilterMap(init, f) {
          var x :| x in init && f(x) == Some(y);
          assert x in xs;
        } else {
          assert f(xs[|xs| - 1]) == Some(y);
        }
      }
    }
  }

  /** Parsing is line by line: the records of two blocks of lines are the
      records of the first followed by those of the second. */
  lemma ParseRecordsAppend(a: seq<string>, b: seq<string>)
    ensures ParseRecords(a + b) == ParseRecords(a) + ParseRecords(b)
  {
    FilterMapAppend(a, b, ParseRow);
  }

  /** One more line adds its record, if it has one, at the end. */
  lemma ParseRecordsPrefix(lines: seq<string>, i: nat)
    requires i < |lines|
    ensures ParseRecords(lines[..i + 1]) ==
      ParseRecords(lines[..i]) + (if ParseRow(lines[i]).Some? then [ParseRow(lines[i]).value] else [])
  {
    var all := lines[..i + 1];
    assert all[..|all| - 1] == lines[..i];
  }

  /** Every record comes from a line that parses to it, and every line with
      at least nine fields yields its record. */
  lemma ParseRecordsMembers(lines: seq<string>)
    ensures forall r :: r in ParseRecords(lines) ==> exists l :: l in lines && ParseRow(l) == Some(r)
    ensures forall l :: l in lines && Occurrences(l, ',') >= MinFields - 1 ==> ParseRow(l).value in ParseRecords(lines)
  {
    FilterMapMembers(lines, ParseRow);
  }

  /** Blank lines before the header do not count. */
  lemma LeadingBlankLine(blank: string, rest: string)
    requires '\n' !in blank && IsBlank(blank)
    ensures NonBlankLines(blank + "\n" + rest) == NonBlankLines(rest)
  {
    SplitAfterFirst(blank, '\n', rest);
    assert blank + "\n" + rest == blank + ['\n'] + rest;
    assert ([blank] + Split(rest, '\n'))[1..] == Split(rest, '\n');
  }

  /** The first non-blank line is the header and never becomes a record:
      what the load yields does not depend on it at all. */
  lemma HeaderIgnored(header: string, otherHeader: string, body: string)
    requires '\n' !in header && !IsBlank(header)
    requires '\n' !in otherHeader && !IsBlank(otherHeader)
    ensures ParseText(header + "\n" + body) == ParseText(otherHeader + "\n" + body)
    ensures ParseText(header + "\n" + body) == Some(ParseRecords(NonBlankLines(body)))
  {
    HeaderLine(header, body);
    HeaderLine(otherHeader, body);
  }

  lemma HeaderLine(header: string, body: string)
    requires '\n' !in header && !IsBlank(header)
    ensures NonBlankLines(header + "\n" + body) == [header] + NonBlankLines(body)
  {
    SplitAfterFirst(header, '\n', body);
    assert header + "\n" + body == header + ['\n'] + body;
    assert ([header] + Split(body, '\n'))[1..] == Split(body, '\n');
  }

  // ---------------------------------------------------------------------
  // Aggregation by registration name

  /** One record's contribution to its group (script.js:118-119):
      `addMembers` with its four counts, then its club appended to
      `dantaiList`. */
  function Absorb(g: GroupStats, r: Record): (res: GroupStats)
    ensures res.registrationName == g.registrationName
    ensures res.dantaiList == g.dantaiList + [r.dantaiName]
    ensures r.TotalIsSum() ==> res.total == g.total + r.total
    ensures g.Balanced() ==> res.Balanced()
  {
    var added := g.AddMembers(r.boysElementary, r.girlsElementary, r.boysMiddle, r.girlsMiddle);
    added.(dantaiList := added.dantaiList + [r.dantaiName])
  }

  /** The registration names that occur in `recs`. */
  function Names(recs: seq<Record>): (names: set<string>)
    ensures forall i :: 0 <= i < |recs| ==> recs[i].registrationName in names
    ensures forall k :: k in names ==> exists i :: 0 <= i < |recs| && recs[i].registrationName == k
  {
    if recs == [] then {} else Names(recs[..|recs| - 1]) + {recs[|recs| - 1].registrationName}
  }

  /** The keys of `aggregatedData` in property order: each registration name
      once, in order of first appearance. */
  function FirstSeen(recs: seq<Record>): (keys: seq<string>)
    ensures Distinct(keys)
    ensures forall k :: k in keys <==> k in Names(recs)
  {
    if recs == [] then []
    else
      var prev := FirstSeen(recs[..|recs| - 1]);
      var name := recs[|recs| - 1].registrationName;
      if name in prev then prev else prev + [name]
  }

  /** The records of one registration, in input order. */
  function RecordsOf(recs: seq<Record>, name: string): (rs: seq<Record>)
    ensures forall i :: 0 <= i < |rs| ==> rs[i].registrationName == name
  {
    if recs == [] then []
    else
      var prev := RecordsOf(recs[..|recs| - 1], name);
      if recs[|recs| - 1].registrationName == name then prev + [recs[|recs| - 1]] else prev
  }

  /** A new group that has absorbed `rs` in order. */
  function Build(name: string, rs: seq<Record>): GroupStats {
    if rs == [] then NewGroup(name) else Absorb(Build(name, rs[..|rs| - 1]), rs[|rs| - 1])
  }

  /** The group of `name` once every record has been folded in. */
  function GroupFor(recs: seq<Record>, name: string): GroupStats {
    Build(name, RecordsOf(recs, name))
  }

  /** `Object.values(aggregatedData)` after the loop: one group per name, in
      order of first appearance. */
  function Aggregate(recs: seq<Record>): (groups: seq<GroupStats>)
    ensures |groups| == |FirstSeen(recs)|
    ensures forall i :: 0 <= i < |groups| ==> groups[i] == GroupFor(recs, FirstSeen(recs)[i])
  {
    var keys := FirstSeen(recs);
    seq(|keys|, i requires 0 <= i < |keys| => GroupFor(recs, keys[i]))
  }

  datatype Measure = BoysElementary | GirlsElementary | BoysMiddle | GirlsMiddle | Total

  function Field(r: Record, m: Measure): int {
    match m
    case BoysElementary => r.boysElementary
    case GirlsElementary => r.girlsElementary
    case BoysMiddle => r.boysMiddle
    case GirlsMiddle => r.girlsMiddle
    case Total => r.total
  }

  /** A counter of a group, named by the record field it sums. */
  function Counter(g: GroupStats, m: Measure): int {
    match m
    case BoysElementary => g.boysElementary
    case GirlsElementary => g.girlsElementary
    case BoysMiddle => g.boysMiddle
    case GirlsMiddle => g.girlsMiddle
    case Total => g.total
  }

  /** Sum of one measure over records. */
  function SumField(recs: seq<Record>, m: Measure): int {
    if recs == [] then 0 else SumField(recs[..|recs| - 1], m) + Field(recs[|recs| - 1], m)
  }

  function DantaiNames(recs: seq<Record>): (names: seq<string>)
    ensures |names| == |recs|
    ensures forall i :: 0 <= i < |recs| ==> names[i] == recs[i].dantaiName
  {
    seq(|recs|, i requires 0 <= i < |recs| => recs[i].dantaiName)
  }

  /** `reduce((sum, group) => sum + group.total, 0)`. */
  function SumTotals(gs: seq<GroupStats>): (t: int)
    ensures (forall i :: 0 <= i < |gs| ==> gs[i].total >= 0) ==> t >= 0
    ensures |gs| == 1 ==> t == gs[0].total
  {
    if gs == [] then 0 else SumTotals(gs[..|gs| - 1]) + gs[|gs| - 1].total
  }

  // ---------------------------------------------------------------------
  // Properties of the aggregation

  lemma AppendOne(rs: seq<Record>, r: Record)
    ensures forall m :: SumField(rs + [r], m) == SumField(rs, m) + Field(r, m)
    ensures DantaiNames(rs + [r]) == DantaiNames(rs) + [r.dantaiName]
  {
    assert (rs + [r])[..|rs|] == rs;
  }

  /** A group built from its records is named by its key and lists their
      clubs in input order, duplicates kept; each counter is the sum of
      that count over the records, and the total is the sum of the four
      counters. */
  lemma {:induction false} BuildContents(name: string, rs: seq<Record>)
    ensures Build(name, rs).registrationName == name
    ensures Build(name, rs).dantaiList == DantaiNames(rs)
    ensures forall m :: m != Total ==> Counter(Build(name, rs), m) == SumField(rs, m)
    ensures Build(name, rs).Balanced()
  {
    if rs != [] {
      var init := rs[..|rs| - 1];
      var r := rs[|rs| - 1];
      BuildContents(name, init);
      assert rs == init + [r];
      AppendOne(init, r);
      AbsorbCounters(Build(name, init), r);
    }
  }

  /** Absorbing a record adds each of its counts to the matching counter. */
  lemma AbsorbCounters(g: GroupStats, r: Record)
    ensures forall m :: m != Total ==> Counter(Absorb(g, r), m) == Counter(g, m) + Field(r, m)
  {
  }

  /** When every record's total is the sum of its counts (as for parsed
      records), a group's total is the sum of its records' totals. */
  lemma {:induction false} BuildTotal(name: string, rs: seq<Record>)
    requires forall i :: 0 <= i < |rs| ==> rs[i].TotalIsSum()
    ensures Build(name, rs).total == SumField(rs, Total)
  {
    if rs != [] {
      var init := rs[..|rs| - 1];
      assert forall i :: 0 <= i < |init| ==> init[i] == rs[i];
      BuildTotal(name, init);
      assert rs[|rs| - 1].TotalIsSum();
    }
  }

  lemma {:induction false} RecordsOfAllSums(recs: seq<Record>, name: string)
    requires forall i :: 0 <= i < |recs| ==> recs[i].TotalIsSum()
    ensures forall i :: 0 <= i < |RecordsOf(recs, name)| ==> RecordsOf(recs, name)[i].TotalIsSum()
  {
    if recs != [] {
      var init := recs[..|recs| - 1];
      assert forall i :: 0 <= i < |init| ==> init[i] == recs[i];
      RecordsOfAllSums(init, name);
    }
  }

  /** Each group of the aggregation holds exactly its own records. */
  lemma GroupContents(recs: seq<Record>, name: string)
    ensures GroupFor(recs, name).registrationName == name
    ensures GroupFor(recs, name).dantaiList == DantaiNames(RecordsOf(recs, name))
    ensures forall m :: m != Total ==> Counter(GroupFor(recs, name), m) == SumField(RecordsOf(recs, name), m)
    ensures GroupFor(recs, name).Balanced()
    ensures (forall i :: 0 <= i < |recs| ==> recs[i].TotalIsSum()) ==>
      GroupFor(recs, name).total == SumField(RecordsOf(recs, name), Total)
  {
    BuildContents(name, RecordsOf(recs, name));
    if forall i :: 0 <= i < |recs| ==> recs[i].TotalIsSum() {
      RecordsOfAllSums(recs, name);
      BuildTotal(name, RecordsOf(recs, name));
    }
  }

  /** Folding one more record in changes only that record's group. */
  lemma GroupForSnoc(init: seq<Record>, r: Record, name: string)
    ensures GroupFor(init + [r], name) ==
      if name == r.registrationName then Absorb(GroupFor(init, name), r) else GroupFor(init, name)
  {
    var recs := init + [r];
    assert recs[..|recs| - 1] == init;
    if name == r.registrationName {
      var rs := RecordsOf(recs, name);
      assert rs[..|rs| - 1] == RecordsOf(init, name);
    }
  }

  lemma FirstSeenSnoc(init: seq<Record>, r: Record)
    ensures FirstSeen(init + [r]) ==
      if r.registrationName in FirstSeen(init) then FirstSeen(init) else FirstSeen(init) + [r.registrationName]
  {
    assert (init + [r])[..|init|] == init;
  }

  lemma {:induction false} NoRecordsOf(recs: seq<Record>, k: string)
    requires k !in Names(recs)
    ensures RecordsOf(recs, k) == []
  {
    if recs != [] {
      NoRecordsOf(recs[..|recs| - 1], k);
    }
  }

  lemma {:induction false} SumTotalsUpdate(gs: seq<GroupStats>, i: nat, g: GroupStats)
    requires i < |gs|
    ensures SumTotals(gs[i := g]) == SumTotals(gs) - gs[i].total + g.total
  {
    if i < |gs| - 1 {
      SumTotalsUpdate(gs[..|gs| - 1], i, g);
      assert gs[i := g][..|gs| - 1] == gs[..|gs| - 1][i := g];
    } else {
      assert gs[i := g][..|gs| - 1] == gs[..|gs| - 1];
    }
  }

  /** A record leaves the groups of the other names where they were. */
  lemma AggregateSnocOther(init: seq<Record>, r: Record, j: nat)
    requires j < |FirstSeen(init)| && FirstSeen(init)[j] != r.registrationName
    ensures j < |Aggregate(init + [r])| && Aggregate(init + [r])[j] == Aggregate(init)[j]
  {
    var k := FirstSeen(init)[j];
    FirstSeenSnoc(init, r);
    GroupForSnoc(init, r, k);
  }

  /** A record with a new registration name appends a group. */
  lemma AggregateSnocNew(init: seq<Record>, r: Record)
    requires r.registrationName !in FirstSeen(init)
    ensures Aggregate(init + [r]) == Aggregate(init) + [Absorb(NewGroup(r.registrationName), r)]
  {
    var n := |FirstSeen(init)|;
    var before, after := Aggregate(init), Aggregate(init + [r]);
    var expected := before + [Absorb(NewGroup(r.registrationName), r)];
    AggregateSnocFresh(init, r);
    forall j | 0 <= j < |after|
      ensures after[j] == expected[j]
    {
      if j < n {
        AggregateSnocOther(init, r, j);
      }
    }
  }

  /** The group of a new name goes last and holds just its first record. */
  lemma AggregateSnocFresh(init: seq<Record>, r: Record)
    requires r.registrationName !in FirstSeen(init)
    ensures |Aggregate(init + [r])| == |FirstSeen(init)| + 1
    ensures Aggregate(init + [r])[|FirstSeen(init)|] == Absorb(NewGroup(r.registrationName), r)
  {
    FirstSeenSnoc(init, r);
    GroupForSnoc(init, r, r.registrationName);
    NoRecordsOf(init, r.registrationName);
  }

  /** The group of the record's own name absorbs it. */
  lemma AggregateSnocSame(init: seq<Record>, r: Record, i: nat)
    requires i < |FirstSeen(init)| && FirstSeen(init)[i] == r.registrationName
    ensures i < |Aggregate(init + [r])| && Aggregate(init + [r])[i] == Absorb(Aggregate(init)[i], r)
  {
    FirstSeenSnoc(init, r);
    GroupForSnoc(init, r, r.registrationName);
  }

  /** A record with a known registration name updates its group in place. */
  lemma AggregateSnocOld(init: seq<Record>, r: Record, i: nat)
    requires i < |FirstSeen(init)| && FirstSeen(init)[i] == r.registrationName
    ensures Aggregate(init + [r]) == Aggregate(init)[i := Absorb(Aggregate(init)[i], r)]
  {
    var keys := FirstSeen(init);
    FirstSeenSnoc(init, r);
    var before, after := Aggregate(init), Aggregate(init + [r]);
    var updated := before[i := Absorb(before[i], r)];
    assert |after| == |updated|;
    forall j | 0 <= j < |keys|
      ensures after[j] == updated[j]
    {
      if j == i {
        AggregateSnocSame(init, r, i);
      } else {
        AggregateSnocOther(init, r, j);
      }
    }
  }

  /** Conservation: when every record's total is the sum of its counts (as
      for every parsed record), the group totals add up to the record
      totals. */
  lemma {:induction false} Conservation(recs: seq<Record>)
    requires forall i :: 0 <= i < |recs| ==> recs[i].TotalIsSum()
    ensures SumTotals(Aggregate(recs)) == SumField(recs, Total)
  {
    if recs != [] {
      var init := recs[..|recs| - 1];
      var r := recs[|recs| - 1];
      assert recs == init + [r];
      assert forall i :: 0 <= i < |init| ==> init[i] == recs[i];
      Conservation(init);
      ConservationStep(init, r);
      AppendOne(init, r);
    }
  }

  lemma ConservationStep(init: seq<Record>, r: Record)
    requires r.TotalIsSum()
    ensures SumTotals(Aggregate(init + [r])) == SumTotals(Aggregate(init)) + r.total
  {
    var name := r.registrationName;
    var before := Aggregate(init);
    var keys := FirstSeen(init);
    if name in keys {
      var i :| 0 <= i < |keys| && keys[i] == name;
      var g := Absorb(before[i], r);
      AggregateSnocOld(init, r, i);
      SumTotalsUpdate(before, i, g);
    } else {
      var g := Absorb(NewGroup(name), r);
      AggregateSnocNew(init, r);
      var after := before + [g];
      assert after[..|after| - 1] == before;
    }
  }

  /** A list without repeats has as many distinct elements as positions. */
  lemma {:induction false} DistinctCardinality(s: seq<string>)
    requires Distinct(s)
    ensures |set x | x in s| == |s|
  {
    if s != [] {
      var init := s[..|s| - 1];
      DistinctCardinality(init);
      assert (set x | x in s) == (set x | x in init) + {s[|s| - 1]};
      assert s[|s| - 1] !in init;
    }
  }

  /** There are no more registration names than records. */
  lemma {:induction false} NamesBound(recs: seq<Record>)
    ensures |Names(recs)| <= |recs|
  {
    if recs != [] {
      NamesBound(recs[..|recs| - 1]);
    }
  }

  /** The number of groups is the number of distinct registration names. */
  lemma GroupCount(recs: seq<Record>)
    ensures |Aggregate(recs)| == |Names(recs)|
  {
    var keys := FirstSeen(recs);
    DistinctCardinality(keys);
    assert (set x | x in keys) == Names(recs);
  }
}
