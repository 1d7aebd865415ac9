/** scrape_xp.py: read the roster, turn each character's scraped XP table
    into a date -> gain map, persist all maps to xp_log.json only when they
    changed, and then rank the characters by their gain on the latest date
    seen in any table. */
module ScrapeXp {
  import opened Wrappers
  import opened Text
  import opened Leaderboard

  /** One character's scraped table: date text -> XP gain text. */
  type Table = map<string, string>

  // ---------------------------------------------------------------------------
  // load_characters

  /** The roster: every line of characters.txt stripped, blank lines dropped. */
  function LoadCharacters(lines: seq<string>): (names: seq<string>)
    ensures |names| <= |lines|
    ensures forall i :: 0 <= i < |names| ==> names[i] != [] && IsStripped(names[i])
  {
    if lines == [] then []
    else
      var name := Strip(lines[0]);
      StripShape(lines[0]);
      var rest := LoadCharacters(lines[1..]);
      if name == [] then rest else [name] + rest
  }

  /** The roster of two pieces of the file is the roster of the first piece
      followed by that of the second: names keep the order of their lines. */
  lemma {:induction false} LoadCharactersAppend(a: seq<string>, b: seq<string>)
    ensures LoadCharacters(a + b) == LoadCharacters(a) + LoadCharacters(b)
  {
    if a == [] {
      assert a + b == b;
    } else {
      assert (a + b)[0] == a[0];
      assert (a + b)[1..] == a[1..] + b;
      LoadCharactersAppend(a[1..], b);
    }
  }

  /** A name is on the roster exactly when some line strips to it and is not blank. */
  lemma {:induction false} LoadCharactersMembers(lines: seq<string>, name: string)
    ensures name in LoadCharacters(lines) <==> name != [] && exists i :: 0 <= i < |lines| && Strip(lines[i]) == name
  {
    if lines != [] {
      LoadCharactersMembers(lines[1..], name);
      if name != [] && Strip(lines[0]) != name && (exists i :: 0 <= i < |lines| && Strip(lines[i]) == name) {
        var i :| 0 <= i < |lines| && Strip(lines[i]) == name;
        assert lines[1..][i - 1] == lines[i];
      }
      if exists i :: 0 <= i < |lines[1..]| && Strip(lines[1..][i]) == name {
        var i :| 0 <= i < |lines[1..]| && Strip(lines[1..][i]) == name;
        assert lines[i + 1] == lines[1..][i];
      }
    }
  }

  /** Reading the roster back from its own names changes nothing. */
  lemma {:induction false} LoadCharactersIdempotent(lines: seq<string>)
    ensures LoadCharacters(LoadCharacters(lines)) == LoadCharacters(lines)
  {
    if lines != [] {
      var head := if Strip(lines[0]) == [] then [] else [Strip(lines[0])];
      LoadCharactersIdempotent(lines[1..]);
      LoadCharactersAppend(head, LoadCharacters(lines[1..]));
      if head != [] {
        StripShape(lines[0]);
        StripStripped(Strip(lines[0]));
        assert LoadCharacters(head) == head by {
          assert head[1..] == [];
        }
      }
    }
  }

  // ---------------------------------------------------------------------------
  // The row -> map comprehension of scrape_xp

  predicate AllRowsHaveTwoCells(rows: seq<Row>) {
    forall i :: 0 <= i < |rows| ==> |rows[i]| >= 2
  }

  /** The first row with fewer than two cells, or `|rows|`. */
  function FirstShortRow(rows: seq<Row>): (k: nat)
    ensures k <= |rows|
    ensures forall i :: 0 <= i < k ==> |rows[i]| >= 2
    ensures k < |rows| ==> |rows[k]| < 2
  {
    if rows == [] || |rows[0]| < 2 then 0 else 1 + FirstShortRow(rows[1..])
  }

  /** `(cells[0].strip(), cells[1].strip())` for every row. */
  function DatePairs(rows: seq<Row>): (pairs: seq<(string, string)>)
    requires AllRowsHaveTwoCells(rows)
    ensures |pairs| == |rows|
    ensures forall i :: 0 <= i < |rows| ==> pairs[i] == (Strip(rows[i][0]), Strip(rows[i][1]))
  {
    seq(|rows|, i requires 0 <= i < |rows| && AllRowsHaveTwoCells(rows) => (Strip(rows[i][0]), Strip(rows[i][1])))
  }

  /** The keys of the pairs. */
  function Keys<K, V>(pairs: seq<(K, V)>): set<K> {
    set i | 0 <= i < |pairs| :: pairs[i].0
  }

  /** Pair `i`'s key is not repeated by a later pair. */
  predicate LastWithItsKey<K(==), V>(pairs: seq<(K, V)>, i: nat)
    requires i < |pairs|
  {
    forall j :: i < j < |pairs| ==> pairs[j].0 != pairs[i].0
  }

  /** A dict comprehension `{k: v for (k, v) in pairs}`, entered pair by
      pair: its keys are the keys of the pairs. */
  function PairsToMap<K(==), V>(pairs: seq<(K, V)>): (m: map<K, V>)
    ensures m.Keys == Keys(pairs)
  {
    if pairs == [] then
      map[]
    else
      var n := |pairs| - 1;
      var init := pairs[..n];
      assert Keys(pairs) == Keys(init) + {pairs[n].0} by {
        assert forall i :: 0 <= i < n ==> init[i] == pairs[i];
      }
      PairsToMap(init)[pairs[n].0 := pairs[n].1]
  }

  /** A key takes the value of the last pair that carries it. */
  lemma {:induction false} PairsToMapLast<K, V>(pairs: seq<(K, V)>, i: nat)
    requires i < |pairs| && LastWithItsKey(pairs, i)
    ensures pairs[i].0 in PairsToMap(pairs)
    ensures PairsToMap(pairs)[pairs[i].0] == pairs[i].1
  {
    var n := |pairs| - 1;
    assert pairs[i].0 in Keys(pairs);
    if i < n {
      var init := pairs[..n];
      assert init[i] == pairs[i];
      assert LastWithItsKey(init, i);
      PairsToMapLast(init, i);
    }
  }

  /** `{cells[0].strip(): cells[1].strip() for cells in rows}`, or the index of
      the first row where `cells[0]` or `cells[1]` raises `IndexError`. A date
      that several rows share takes the value of the last of them. */
  function RowsToTable(rows: seq<Row>): (r: Result<Table, nat>)
    ensures r.Success? <==> AllRowsHaveTwoCells(rows)
    ensures r.Failure? ==> r.error < |rows| && |rows[r.error]| < 2
                           && forall i :: 0 <= i < r.error ==> |rows[i]| >= 2
    ensures r.Success? ==> r.value == PairsToMap(DatePairs(rows))
  {
    var k := FirstShortRow(rows);
    if k < |rows| then Failure(k) else Success(PairsToMap(DatePairs(rows)))
  }

  /** Every scraped row's date is a key of the table, and a date not repeated
      further down takes that row's XP text. */
  lemma RowsToTableEntries(rows: seq<Row>, i: nat)
    requires AllRowsHaveTwoCells(rows) && i < |rows|
    ensures RowsToTable(rows).Success?
    ensures Strip(rows[i][0]) in RowsToTable(rows).value
    ensures (forall j :: i < j < |rows| ==> Strip(rows[j][0]) != Strip(rows[i][0])) ==>
              RowsToTable(rows).value[Strip(rows[i][0])] == Strip(rows[i][1])
  {
    var pairs := DatePairs(rows);
    assert pairs[i].0 in Keys(pairs);
    if forall j :: i < j < |rows| ==> Strip(rows[j][0]) != Strip(rows[i][0]) {
      assert LastWithItsKey(pairs, i);
      PairsToMapLast(pairs, i);
    }
  }

  /** Every key of the table is the date of some row. */
  lemma RowsToTableKeys(rows: seq<Row>, d: string)
    requires AllRowsHaveTwoCells(rows)
    requires d in RowsToTable(rows).value
    ensures exists i :: 0 <= i < |rows| && Strip(rows[i][0]) == d
  {
    var pairs := DatePairs(rows);
    var i :| 0 <= i < |pairs| && pairs[i].0 == d;
  }

  /** `scrape_xp` from the parsed page on: `None` when the page has no
      `chart_table` (an empty map), otherwise the comprehension over every
      table row but the first, the header. A failure names the table row
      that is too short. */
  function ScrapeTable(table: Option<seq<Row>>): (r: Result<Table, nat>)
    ensures table.None? ==> r == Success(map[])
    ensures table.Some? && |table.value| <= 1 ==> r == Success(map[])
    ensures r.Failure? ==> table.Some? && 1 <= r.error < |table.value| && |table.value[r.error]| < 2
    ensures r.Success? && table.Some? && |table.value| > 1 ==> r == RowsToTable(table.value[1..])
  {
    match table
    case None => Success(map[])
    case Some(rows) =>
      if |rows| <= 1 then
        Success(map[])
      else
        var data := rows[1..];
        assert forall i :: 1 <= i < |rows| ==> rows[i] == data[i - 1];
        match RowsToTable(data)
        case Failure(i) => Failure(i + 1)
        case Success(t) => Success(t)
  }

  // ---------------------------------------------------------------------------
  // load_existing / save_if_changed

  /** xp_log.json. `saved` is `None` while the file does not exist. */
  class XpStore {
    var saved: Option<map<string, Table>>

    constructor (initial: Option<map<string, Table>>)
      ensures saved == initial
    {
      saved := initial;
    }

    /** `load_existing()`: the stored maps, or `{}` when there is no file. */
    function LoadExisting(): (m: map<string, Table>)
      reads this
      ensures saved.None? ==> m == map[]
      ensures saved.Some? ==> m == saved.value
    {
      match saved
      case None => map[]
      case Some(m) => m
    }

    /** `save_if_changed(data)`: writes `data` and answers `true` exactly when it
        differs from what `load_existing()` returns; otherwise leaves the file as it is. */
    method SaveIfChanged(data: map<string, Table>) returns (changed: bool)
      modifies this
      ensures changed <==> data != old(LoadExisting())
      ensures changed ==> saved == Some(data)
      ensures !changed ==> saved == old(saved)
      ensures LoadExisting() == data
    {
      var existing := LoadExisting();
      if data == existing {
        return false;
      }
      saved := Some(data);
      return true;
    }
  }

  /** Saving the same maps twice in a row: the second call reports no change
      and leaves the file alone. */
  method SaveTwice(store: XpStore, data: map<string, Table>) returns (first: bool, second: bool)
    modifies store
    ensures first <==> data != old(store.LoadExisting())
    ensures !second
    ensures store.LoadExisting() == data
  {
    first := store.SaveIfChanged(data);
    ghost var afterFirst := store.saved;
    second := store.SaveIfChanged(data);
    assert store.saved == afterFirst;
  }

  // ---------------------------------------------------------------------------
  // all_xp: an insertion-ordered dict filled from the roster

  /** The dict `all_xp`: its keys in insertion order, and its entries. */
  datatype XpLog = XpLog(names: seq<string>, tables: map<string, Table>)

  predicate Distinct(s: seq<string>) {
    forall i, j :: 0 <= i < j < |s| ==> s[i] != s[j]
  }

  /** The listed names are exactly the keys of `all_xp`. */
  ghost predicate ListsItsKeys(log: XpLog) {
    forall n :: n in log.tables <==> n in log.names
  }

  /** ... and each is listed once. */
  ghost predicate Keyed(log: XpLog) {
    Distinct(log.names) && ListsItsKeys(log)
  }

  /** The keys of a dict assigned `d[s[0]]`, `d[s[1]]`, ...: each element of `s`
      once, where it first occurs. */
  function Unique(s: seq<string>): (u: seq<string>)
    ensures forall x :: x in u <==> x in s
    ensures Distinct(u)
  {
    if s == [] then []
    else
      var u := Unique(s[..|s| - 1]);
      assert forall x :: x in s <==> x in s[..|s| - 1] || x == s[|s| - 1];
      if s[|s| - 1] in u then u else u + [s[|s| - 1]]
  }

  /** Where `x` first occurs in `s`. */
  function FirstIndex(s: seq<string>, x: string): (k: nat)
    requires x in s
    ensures k < |s| && s[k] == x && x !in s[..k]
  {
    if s[0] == x then 0 else assert s == [s[0]] + s[1..]; 1 + FirstIndex(s[1..], x)
  }

  lemma FirstIndexExtend(s: seq<string>, y: string, x: string)
    requires x in s
    ensures FirstIndex(s + [y], x) == FirstIndex(s, x)
  {
    if s[0] != x {
      assert (s + [y])[1..] == s[1..] + [y];
      FirstIndexExtend(s[1..], y, x);
    }
  }

  /** `all_xp` lists the characters in roster order of their first appearance. */
  lemma {:induction false} UniqueInRosterOrder(s: seq<string>, i: nat, j: nat)
    requires i < j < |Unique(s)|
    ensures FirstIndex(s, Unique(s)[i]) < FirstIndex(s, Unique(s)[j])
    decreases |s|
  {
    var init, x := s[..|s| - 1], s[|s| - 1];
    assert s == init + [x];
    var u := Unique(init);
    assert u[i] in init;
    FirstIndexExtend(init, x, u[i]);
    if j < |u| {
      assert u[j] in init;
      FirstIndexExtend(init, x, u[j]);
      UniqueInRosterOrder(init, i, j);
    } else {
      assert x !in u && x !in init;
      assert Unique(s)[j] == x;
      assert forall m :: 0 <= m < |init| ==> init[m] == s[m];
      assert FirstIndex(s, x) == |s| - 1;
    }
  }

  /** The pairs `(a[i], b[i])`. */
  function Zip<A, B>(a: seq<A>, b: seq<B>): (z: seq<(A, B)>)
    requires |a| == |b|
    ensures |z| == |a|
    ensures forall i :: 0 <= i < |a| ==> z[i] == (a[i], b[i])
  {
    if a == [] then [] else [(a[0], b[0])] + Zip(a[1..], b[1..])
  }

  /** The `for name in characters: all_xp[name] = scrape_xp(name)` loop, given
      the table each call scraped, in call order: the names in order of first
      appearance, and the tables as assigned, so that a name listed twice
      keeps its first place and its last table. */
  method CollectAllXp(characters: seq<string>, scraped: seq<Table>) returns (log: XpLog)
    requires |scraped| == |characters|
    ensures Keyed(log)
    ensures log.names == Unique(characters)
    ensures log.tables == PairsToMap(Zip(characters, scraped))
  {
    ghost var pairs := Zip(characters, scraped);
    var names: seq<string> := [];
    var tables: map<string, Table> := map[];
    for k := 0 to |characters|
      invariant Collected(characters, scraped, k, names, tables)
    {
      var name := characters[k];
      var names' := if name !in tables then names + [name] else names;
      CollectStep(characters, scraped, k, names, tables);
      names, tables := names', tables[name := scraped[k]];
    }
    assert characters[..|characters|] == characters;
    assert pairs[..|characters|] == pairs;
    log := XpLog(names, tables);
  }

  /** The state of the collection loop after the first `k` roster names. */
  ghost predicate Collected(characters: seq<string>, scraped: seq<Table>, k: nat, names: seq<string>, tables: map<string, Table>)
    requires |scraped| == |characters|
  {
    k <= |characters|
    && names == Unique(characters[..k])
    && tables == PairsToMap(Zip(characters, scraped)[..k])
    && forall n :: n in tables <==> n in names
  }

  /** One turn of the collection loop keeps its state in step with the roster. */
  lemma CollectStep(characters: seq<string>, scraped: seq<Table>, k: nat, names: seq<string>, tables: map<string, Table>)
    requires |scraped| == |characters| && k < |characters|
    requires Collected(characters, scraped, k, names, tables)
    ensures var name := characters[k];
            Collected(characters, scraped, k + 1,
                      if name !in tables then names + [name] else names,
                      tables[name := scraped[k]])
  {
    var pairs := Zip(characters, scraped);
    assert characters[..k + 1] == characters[..k] + [characters[k]];
    assert pairs[..k + 1] == pairs[..k] + [(characters[k], scraped[k])];
    UniqueSnoc(characters[..k], characters[k]);
    PairsToMapSnoc(pairs[..k], characters[k], scraped[k]);
  }

  /** Appending a name extends the first-appearance order only when it is new. */
  lemma UniqueSnoc(s: seq<string>, x: string)
    ensures Unique(s + [x]) == if x in Unique(s) then Unique(s) else Unique(s) + [x]
  {
    assert (s + [x])[..|s|] == s;
  }

  /** A later pair overrides the value of its key. */
  lemma PairsToMapSnoc<K, V>(pairs: seq<(K, V)>, key: K, value: V)
    ensures PairsToMap(pairs + [(key, value)]) == PairsToMap(pairs)[key := value]
  {
    assert (pairs + [(key, value)])[..|pairs|] == pairs;
  }

  /** After the loop, a roster name maps to the table scraped for its last
      occurrence in the roster. */
  lemma CollectedLastTable(characters: seq<string>, scraped: seq<Table>, i: nat)
    requires |scraped| == |characters| && i < |characters|
    requires forall j :: i < j < |characters| ==> characters[j] != characters[i]
    ensures characters[i] in PairsToMap(Zip(characters, scraped))
    ensures PairsToMap(Zip(characters, scraped))[characters[i]] == scraped[i]
  {
    var pairs := Zip(characters, scraped);
    assert LastWithItsKey(pairs, i);
    PairsToMapLast(pairs, i);
  }

  // ---------------------------------------------------------------------------
  // latest_date

  /** `max(xp.keys())` for a non-empty table. */
  method MaxDate(table: Table) returns (latest: string)
    requires table != map[]
    ensures latest in table
    ensures forall d :: d in table ==> LexLessEq(d, latest)
  {
    var rest := table.Keys;
    latest :| latest in rest;
    rest := rest - {latest};
    while rest != {}
      invariant rest <= table.Keys && latest in table
      invariant forall d :: d in table && d !in rest ==> LexLessEq(d, latest)
      decreases rest
    {
      var d :| d in rest;
      if LexLess(latest, d) {
        forall e | e in table && e !in rest
          ensures LexLessEq(e, d)
        {
          LexLessEqTransitive(e, latest, d);
        }
        latest := d;
      } else if d != latest {
        LexLessTotal(d, latest);
      }
      rest := rest - {d};
    }
  }

  /** `max(d1, ..., dn)` for a non-empty list of dates. */
  method MaxOf(dates: seq<string>) returns (latest: string)
    requires dates != []
    ensures latest in dates
    ensures forall i :: 0 <= i < |dates| ==> LexLessEq(dates[i], latest)
  {
    latest := dates[0];
    for k := 1 to |dates|
      invariant latest in dates[..k]
      invariant forall i :: 0 <= i < k ==> LexLessEq(dates[i], latest)
    {
      if LexLess(latest, dates[k]) {
        forall i | 0 <= i < k
          ensures LexLessEq(dates[i], dates[k])
        {
          LexLessEqTransitive(dates[i], latest, dates[k]);
        }
        latest := dates[k];
      } else if dates[k] != latest {
        LexLessTotal(dates[k], latest);
      }
    }
    assert dates[..|dates|] == dates;
  }

  /** `latest_dates = [max(xp.keys()) for xp in all_xp.values() if xp]` and
      `max(latest_dates)`: the greatest date key of any character's table, or
      `None` ("No XP dates found.") when every table is empty. */
  method LatestDate(log: XpLog) returns (latest: Option<string>)
    requires ListsItsKeys(log)
    ensures latest.None? <==> forall n :: n in log.tables ==> log.tables[n] == map[]
    ensures latest.Some? ==> exists n :: n in log.tables && latest.value in log.tables[n]
    ensures latest.Some? ==> forall n, d :: n in log.tables && d in log.tables[n] ==> LexLessEq(d, latest.value)
  {
    var dates: seq<string> := [];
    ghost var owners: seq<string> := [];
    for k := 0 to |log.names|
      invariant |owners| == |dates|
      invariant forall i :: 0 <= i < |dates| ==> owners[i] in log.tables && dates[i] in log.tables[owners[i]]
      invariant forall i, d :: 0 <= i < |dates| && d in log.tables[owners[i]] ==> LexLessEq(d, dates[i])
      invariant forall j :: 0 <= j < k && log.tables[log.names[j]] != map[] ==> log.names[j] in owners
      invariant dates == [] ==> forall j :: 0 <= j < k ==> log.tables[log.names[j]] == map[]
    {
      var xp := log.tables[log.names[k]];
      if xp != map[] {
        var m := MaxDate(xp);
        dates := dates + [m];
        owners := owners + [log.names[k]];
      }
    }
    if dates == [] {
      return None;
    }
    var m := MaxOf(dates);
    latest := Some(m);
    forall n, d | n in log.tables && d in log.tables[n]
      ensures LexLessEq(d, m)
    {
      var j :| 0 <= j < |log.names| && log.names[j] == n;
      var i :| 0 <= i < |owners| && owners[i] == n;
      LexLessEqTransitive(d, dates[i], m);
    }
  }

  // ---------------------------------------------------------------------------
  // daily_xp_ranking

  /** `int(text.replace(",", "").replace("+", "").strip())`, with 0 where `int()`
      raises `ValueError`. */
  function NormaliseXp(text: string): int {
    match ParseInt(Strip(Without(Without(text, ','), '+')))
    case Some(v) => v
    case None => 0
  }

  /** A gain printed with its thousands separators normalises back to itself. */
  lemma NormaliseXpReadsFormat(n: int)
    ensures NormaliseXp(FormatThousands(n)) == n
  {
    FormatThousandsParses(n);
  }

  /** The `"+0"` default of `xp_dict.get(latest_date, "+0")` normalises to 0. */
  lemma NormaliseXpDefault()
    ensures NormaliseXp("+0") == 0
  {
    assert Without("+0", ',') == "+0";
    assert Without("+0", '+') == "0";
    StripStripped("0");
  }

  /** Text `int()` refuses normalises to 0. */
  lemma NormaliseXpUnparsable(text: string)
    requires !IsIntLiteral(Strip(Without(Without(text, ','), '+')))
    ensures NormaliseXp(text) == 0
  {
  }

  /** `table.get(key, default)` */
  function Get(table: Table, key: string, default: string): string {
    if key in table then table[key] else default
  }

  /** `xp_dict.get(latest_date, "+0")`, normalised. */
  function GainOn(table: Table, latest: string): int {
    NormaliseXp(Get(table, latest, "+0"))
  }

  /** A character with an entry for the latest date ranks with that entry's
      gain; one without ranks with 0. */
  lemma GainOnCases(table: Table, latest: string)
    ensures latest in table ==> GainOn(table, latest) == NormaliseXp(table[latest])
    ensures latest !in table ==> GainOn(table, latest) == 0
  {
    if latest !in table {
      NormaliseXpDefault();
    }
  }

  /** The gain of each name of the log on `latest`, in log order. */
  ghost function Gains(log: XpLog, latest: string): (gains: seq<int>)
    requires ListsItsKeys(log)
    ensures |gains| == |log.names|
  {
    seq(|log.names|, i requires 0 <= i < |log.names| && ListsItsKeys(log) => GainOn(log.tables[log.names[i]], latest))
  }

  /** The loop over `all_xp.items()` that builds `daily_xp_ranking`: one entry per
      character, in `all_xp` order, holding its gain on `latest`. */
  method BuildRanking(log: XpLog, latest: string) returns (ranking: seq<Entry>)
    requires ListsItsKeys(log)
    ensures |ranking| == |log.names|
    ensures forall i :: 0 <= i < |ranking| ==> ranking[i] == Entry(log.names[i], GainOn(log.tables[log.names[i]], latest))
    ensures ranking == Ranking(log.names, Gains(log, latest), |log.names|)
  {
    ghost var gains := Gains(log, latest);
    ranking := [];
    for k := 0 to |log.names|
      invariant ranking == Ranking(log.names, gains, k)
    {
      var name := log.names[k];
      var xpDict := log.tables[name];
      var xpStr := Get(xpDict, latest, "+0");
      assert gains[k] == NormaliseXp(xpStr);
      ranking := ranking + [Entry(name, NormaliseXp(xpStr))];
    }
    RankingEntries(log.names, gains, |log.names|);
  }

  /** The first `n` entries pairing each name with its gain. */
  function Ranking(names: seq<string>, gains: seq<int>, n: nat): seq<Entry>
    requires n <= |names| == |gains|
  {
    if n == 0 then [] else Ranking(names, gains, n - 1) + [Entry(names[n - 1], gains[n - 1])]
  }

  lemma {:induction false} RankingEntries(names: seq<string>, gains: seq<int>, n: nat)
    requires n <= |names| == |gains|
    ensures |Ranking(names, gains, n)| == n
    ensures forall i :: 0 <= i < n ==> Ranking(names, gains, n)[i] == Entry(names[i], gains[i])
  {
    if n > 0 {
      RankingEntries(names, gains, n - 1);
    }
  }

  // ---------------------------------------------------------------------------
  // The __main__ block

  datatype RunOutcome =
    | ScrapeFailed(character: nat, row: nat)   // IndexError while scraping roster entry `character`
    | NoCharacters                             // "No data scraped for any characters."
    | Unchanged                                // "No XP changes."
    | NoDates                                  // "No XP dates found."
    | Published(date: string, lines: seq<string>)

  /** The first page whose table cannot be scraped, or `|pages|` when every one can. */
  function FirstFailedPage(pages: seq<Option<seq<Row>>>): (k: nat)
    ensures k <= |pages|
    ensures forall i :: 0 <= i < k ==> ScrapeTable(pages[i]).Success?
    ensures k < |pages| ==> ScrapeTable(pages[k]).Failure?
  {
    if pages == [] || ScrapeTable(pages[0]).Failure? then 0 else 1 + FirstFailedPage(pages[1..])
  }

  /** The tables scraped from pages that all scrape. */
  function ScrapedTables(pages: seq<Option<seq<Row>>>): (tables: seq<Table>)
    requires FirstFailedPage(pages) == |pages|
    ensures |tables| == |pages|
    ensures forall i :: 0 <= i < |pages| ==> ScrapeTable(pages[i]) == Success(tables[i])
  {
    seq(|pages|, i requires 0 <= i < |pages| && FirstFailedPage(pages) == |pages| => ScrapeTable(pages[i]).value)
  }

  /** The `all_xp` dict the collection loop leaves for the roster and its tables. */
  function AllXp(characters: seq<string>, tables: seq<Table>): XpLog
    requires |tables| == |characters|
  {
    XpLog(Unique(characters), PairsToMap(Zip(characters, tables)))
  }

  /** `lines` is the leaderboard the script publishes for `date`: a date of
      some table that no date of any table is after, and then one line per
      name of the log, ranked by gain on that date, highest first, with the
      medals on the first three. */
  ghost predicate LeaderboardFor(log: XpLog, date: string, lines: seq<string>) {
    ListsItsKeys(log)
    && (exists n :: n in log.tables && date in log.tables[n])
    && (forall n, d :: n in log.tables && d in log.tables[n] ==> LexLessEq(d, date))
    && var sorted := SortDesc(Ranking(log.names, Gains(log, date), |log.names|));
       |lines| == |sorted| && forall i :: 0 <= i < |lines| ==> lines[i] == Decorated(i, Standing(sorted[i]))
  }

  /** The `for name in characters: ... scrape_xp(name)` calls, in roster
      order: the scraped tables, or the first page with a short row and the
      index of that row. */
  method ScrapeAll(pages: seq<Option<seq<Row>>>) returns (r: Result<seq<Table>, (nat, nat)>)
    ensures r.Failure? <==> FirstFailedPage(pages) < |pages|
    ensures r.Failure? ==> r.error.0 == FirstFailedPage(pages) && ScrapeTable(pages[r.error.0]) == Failure(r.error.1)
    ensures r.Success? ==> r.value == ScrapedTables(pages)
  {
    var scraped: seq<Table> := [];
    for k := 0 to |pages|
      invariant |scraped| == k
      invariant forall i :: 0 <= i < k ==> ScrapeTable(pages[i]) == Success(scraped[i])
    {
      var t := ScrapeTable(pages[k]);
      if t.Failure? {
        assert FirstFailedPage(pages) == k;
        return Failure((k, t.error));
      }
      scraped := scraped + [t.value];
    }
    assert FirstFailedPage(pages) == |pages|;
    return Success(scraped);
  }

  /** The ranking, the sort and the medal loop for the latest date. */
  method Publish(log: XpLog, latest: string) returns (lines: seq<string>)
    requires ListsItsKeys(log)
    ensures var sorted := SortDesc(Ranking(log.names, Gains(log, latest), |log.names|));
            |lines| == |sorted| && forall i :: 0 <= i < |lines| ==> lines[i] == Decorated(i, Standing(sorted[i]))
  {
    var ranking := BuildRanking(log, latest);
    ranking := SortDesc(ranking);
    lines := RenderLeaderboard(ranking);
  }

  /** The script from roster to leaderboard. `pages[i]` is the `chart_table`
      rows the i-th roster entry's page had, if it had one. A short row stops
      the script before anything is saved; otherwise the scraped maps are
      saved exactly when they differ from the stored ones, and a leaderboard
      follows when some table has a date. */
  method Run(store: XpStore, roster: seq<string>, pages: seq<Option<seq<Row>>>) returns (outcome: RunOutcome)
    requires |pages| == |LoadCharacters(roster)|
    modifies store
    ensures outcome.ScrapeFailed? <==> FirstFailedPage(pages) < |pages|
    ensures outcome.ScrapeFailed? ==>
              outcome.character == FirstFailedPage(pages) && ScrapeTable(pages[outcome.character]) == Failure(outcome.row)
    ensures outcome.NoCharacters? <==> LoadCharacters(roster) == []
    ensures outcome.ScrapeFailed? || outcome.NoCharacters? || outcome.Unchanged? ==> store.saved == old(store.saved)
    ensures FirstFailedPage(pages) == |pages| && LoadCharacters(roster) != [] ==>
              var all := AllXp(LoadCharacters(roster), ScrapedTables(pages));
              (outcome.Unchanged? <==> all.tables == old(store.LoadExisting()))
              && (!outcome.Unchanged? ==> store.saved == Some(all.tables))
              && (!outcome.Unchanged? ==> (outcome.NoDates? <==> forall n :: n in all.tables ==> all.tables[n] == map[]))
              && (outcome.Published? ==> LeaderboardFor(all, outcome.date, outcome.lines))
  {
    var characters := LoadCharacters(roster);
    var pulled := ScrapeAll(pages);
    if pulled.Failure? {
      return ScrapeFailed(pulled.error.0, pulled.error.1);
    }
    var scraped := pulled.value;
    var allXp := CollectAllXp(characters, scraped);
    if allXp.names == [] {
      return NoCharacters;
    }
    assert characters != [] by {
      assert forall x :: x in allXp.names <==> x in characters;
    }
    var changed := store.SaveIfChanged(allXp.tables);
    if !changed {
      return Unchanged;
    }
    var latest := LatestDate(allXp);
    if latest.None? {
      return NoDates;
    }
    var lines := Publish(allXp, latest.value);
    return Published(latest.value, lines);
  }
}
