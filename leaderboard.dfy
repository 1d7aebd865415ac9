/** The daily leaderboard of scrape_xp.py: the ranking sorted by XP gain,
    highest first, with ties kept in roster order, and rendered one line per
    character with medals for the first three. */
module Leaderboard {
  import opened Wrappers
  import opened Text

  /** One `(name, xp_val)` tuple of `daily_xp_ranking`. */
  datatype Entry = Entry(name: string, xp: int)

  predicate SortedDesc(s: seq<Entry>) {
    forall i, j :: 0 <= i < j < |s| ==> s[i].xp >= s[j].xp
  }

  /** The entries of `s` whose gain is `v`, in the order they have in `s`. */
  function WithXp(s: seq<Entry>, v: int): seq<Entry> {
    if s == [] then [] else (if s[0].xp == v then [s[0]] else []) + WithXp(s[1..], v)
  }

  lemma {:induction false} WithXpAppend(a: seq<Entry>, b: seq<Entry>, v: int)
    ensures WithXp(a + b, v) == WithXp(a, v) + WithXp(b, v)
  {
    if a == [] {
      assert a + b == b;
    } else {
      assert (a + b)[0] == a[0];
      assert (a + b)[1..] == a[1..] + b;
      WithXpAppend(a[1..], b, v);
    }
  }

  /** Places `e` in front of the first entry whose gain is not greater than its own. */
  function Insert(e: Entry, s: seq<Entry>): (r: seq<Entry>)
    ensures multiset(r) == multiset(s) + multiset{e}
    ensures |r| == |s| + 1
  {
    if s == [] || s[0].xp <= e.xp then
      [e] + s
    else
      assert s == [s[0]] + s[1..];
      [s[0]] + Insert(e, s[1..])
  }

  /** `list.sort(key=lambda x: x[1], reverse=True)`: a stable sort, highest gain
      first. Written as an insertion sort that inserts each entry in front of
      the equal ones that follow it in the input. */
  function SortDesc(s: seq<Entry>): (r: seq<Entry>)
    ensures |r| == |s|
  {
    if s == [] then [] else Insert(s[0], SortDesc(s[1..]))
  }

  lemma {:induction false} InsertSorted(e: Entry, s: seq<Entry>)
    requires SortedDesc(s)
    ensures SortedDesc(Insert(e, s))
  {
    if s != [] && s[0].xp > e.xp {
      InsertSorted(e, s[1..]);
      var r := Insert(e, s);
      var t := Insert(e, s[1..]);
      assert r == [s[0]] + t;
      assert t[0] == e || t[0] == s[1];
      forall i, j | 0 <= i < j < |r| ensures r[i].xp >= r[j].xp {
        if i > 0 {
          assert r[i] == t[i - 1] && r[j] == t[j - 1];
        } else {
          assert r[j] in multiset(t);
          assert r[j] == e || r[j] in multiset(s[1..]);
          if r[j] != e {
            var k :| 0 <= k < |s[1..]| && s[1..][k] == r[j];
            assert s[k + 1] == r[j];
          }
        }
      }
    }
  }

  /** Inserting `e` adds it in front of every entry with the same gain. */
  lemma {:induction false} InsertWithXp(e: Entry, s: seq<Entry>, v: int)
    ensures WithXp(Insert(e, s), v) == if e.xp == v then [e] + WithXp(s, v) else WithXp(s, v)
  {
    if s == [] || s[0].xp <= e.xp {
      WithXpAppend([e], s, v);
    } else {
      InsertWithXp(e, s[1..], v);
      WithXpAppend([s[0]], Insert(e, s[1..]), v);
      WithXpAppend([s[0]], s[1..], v);
      assert [s[0]] + s[1..] == s;
    }
  }

  /** The sorted ranking is ordered by gain, highest first. */
  lemma {:induction false} SortDescSorted(s: seq<Entry>)
    ensures SortedDesc(SortDesc(s))
  {
    if s != [] {
      SortDescSorted(s[1..]);
      InsertSorted(s[0], SortDesc(s[1..]));
    }
  }

  /** The sorted ranking holds the same entries as the unsorted one. */
  lemma {:induction false} SortDescPermutes(s: seq<Entry>)
    ensures multiset(SortDesc(s)) == multiset(s)
  {
    if s != [] {
      SortDescPermutes(s[1..]);
      assert s == [s[0]] + s[1..];
    }
  }

  /** Stability: for every gain `v`, the entries with gain `v` keep the order
      they had before sorting. */
  lemma {:induction false} SortDescStable(s: seq<Entry>, v: int)
    ensures WithXp(SortDesc(s), v) == WithXp(s, v)
  {
    if s != [] {
      SortDescStable(s[1..], v);
      InsertWithXp(s[0], SortDesc(s[1..]), v);
      WithXpAppend([s[0]], s[1..], v);
      assert s == [s[0]] + s[1..];
    }
  }

  // ---------------------------------------------------------------------------
  // Medals and lines

  /** 🥇, 🥈, 🥉 */
  const Medals: seq<string> := ["\U{1F947}", "\U{1F948}", "\U{1F949}"]

  /** `f"{name}: {xp_val:,} XP"`. */
  function Standing(e: Entry): string {
    e.name + ": " + FormatThousands(e.xp) + " XP"
  }

  /** Line `i` of the leaderboard, given the standing text of its entry. */
  function Decorated(i: nat, standing: string): string {
    if i < 3 then Medals[i] + " " + standing else standing
  }

  /** The first `n` lines of the leaderboard over the given standing texts. */
  function Rendered(standings: seq<string>, n: nat): seq<string>
    requires n <= |standings|
  {
    if n == 0 then [] else Rendered(standings, n - 1) + [Decorated(n - 1, standings[n - 1])]
  }

  lemma {:induction false} RenderedLines(standings: seq<string>, n: nat)
    requires n <= |standings|
    ensures |Rendered(standings, n)| == n
    ensures forall i :: 0 <= i < n ==> Rendered(standings, n)[i] == Decorated(i, standings[i])
  {
    if n > 0 {
      RenderedLines(standings, n - 1);
    }
  }

  /** The `medaled_output` loop: line `idx` of the leaderboard is
      `"{medal} {name}: {xp_val:,} XP"` for the first three places and
      `"{name}: {xp_val:,} XP"` after them. */
  method RenderLeaderboard(ranking: seq<Entry>) returns (lines: seq<string>)
    ensures |lines| == |ranking|
    ensures forall i :: 0 <= i < |lines| && i < 3 ==> lines[i] == Medals[i] + " " + Standing(ranking[i])
    ensures forall i :: 3 <= i < |lines| ==> lines[i] == Standing(ranking[i])
  {
    ghost var standings := seq(|ranking|, i requires 0 <= i < |ranking| => Standing(ranking[i]));
    lines := [];
    var idx := 0;
    while idx < |ranking|
      invariant idx <= |ranking| && lines == Rendered(standings, idx)
    {
      var medal := if idx < 3 then Medals[idx] else "";
      var standing := Standing(ranking[idx]);
      var line := if medal != "" then medal + " " + standing else standing;
      assert line == Decorated(idx, standings[idx]) by {
        assert idx < 3 <==> medal != "";
      }
      lines := lines + [line];
      idx := idx + 1;
    }
    RenderedLines(standings, idx);
  }

  /** Every leaderboard line ends with the gain in a form the XP normalisation
      of scrape_xp.py reads back exactly. */
  lemma StandingReadsBack(e: Entry)
    ensures exists figure :: Standing(e) == e.name + ": " + figure + " XP"
                             && ParseInt(Strip(Without(Without(figure, ','), '+'))) == Some(e.xp)
  {
    FormatThousandsParses(e.xp);
    assert Standing(e) == e.name + ": " + FormatThousands(e.xp) + " XP";
  }
}
