/**
 * The two read queries over the seeded `Poetry` table. The table is a sequence in the
 * order the database engine scans it; no sort order is assumed. The LINQ predicate becomes
 * a total Dafny function on rows.
 */
module Queries {
  import opened Wrappers
  import opened Models

  // ---------------------------------------------------------------------------
  // First match by id (`Table<Poetry>().FirstOrDefaultAsync(p => p.Id == id)`)
  // ---------------------------------------------------------------------------

  /** Row `k` has the id, and no earlier row has it. */
  predicate IsFirstMatch(table: seq<Poetry>, id: int, k: int) {
    0 <= k < |table| && table[k].id == id && forall j :: 0 <= j < k ==> table[j].id != id
  }

  lemma FirstMatchShift(table: seq<Poetry>, id: int, k: int)
    requires |table| > 0 && table[0].id != id
    requires IsFirstMatch(table[1..], id, k)
    ensures IsFirstMatch(table, id, k + 1)
  {
    forall j | 0 <= j < k + 1 ensures table[j].id != id {
      if j > 0 { assert table[j] == table[1..][j - 1]; }
    }
  }

  /** The first row in table order whose id is `id`, or `None` (the C# default, null). */
  function FirstById(table: seq<Poetry>, id: int): (r: Option<Poetry>)
    ensures r.None? <==> forall p :: p in table ==> p.id != id
    ensures r.Some? ==> exists k :: IsFirstMatch(table, id, k) && r.value == table[k]
  {
    if |table| == 0 then None
    else if table[0].id == id then
      assert IsFirstMatch(table, id, 0);
      Some(table[0])
    else
      var r := FirstById(table[1..], id);
      assert forall p :: p in table && p != table[0] ==> p in table[1..];
      if r.None? then r
      else
        var k :| IsFirstMatch(table[1..], id, k) && r.value == table[1..][k];
        FirstMatchShift(table, id, k);
        r
  }

  /** No two rows share an id: what a primary key guarantees of the seeded table. */
  ghost predicate UniqueIds(table: seq<Poetry>) {
    forall i, j :: 0 <= i < j < |table| ==> table[i].id != table[j].id
  }

  /** With unique ids, looking up the id of any row returns exactly that row. */
  lemma FirstByIdFindsRow(table: seq<Poetry>, k: nat)
    requires UniqueIds(table)
    requires k < |table|
    ensures FirstById(table, table[k].id) == Some(table[k])
  {
    var r := FirstById(table, table[k].id);
    assert table[k] in table;
    var m :| IsFirstMatch(table, table[k].id, m) && r.value == table[m];
    assert m == k;
  }

  // ---------------------------------------------------------------------------
  // Filter, skip, take (`Table<Poetry>().Where(where).Skip(skip).Take(take)`)
  // ---------------------------------------------------------------------------

  /** The rows that satisfy `where`, in table order. */
  function Filter<T>(where: T -> bool, s: seq<T>): (r: seq<T>)
    ensures |r| <= |s|
    ensures forall i :: 0 <= i < |r| ==> r[i] in s && where(r[i])
    ensures forall i :: 0 <= i < |s| && where(s[i]) ==> s[i] in r
    ensures forall i :: 0 <= i < |s| ==>
      multiset(r)[s[i]] == if where(s[i]) then multiset(s)[s[i]] else 0
  {
    if s == [] then []
    else
      var rest := Filter(where, s[1..]);
      assert forall i :: 1 <= i < |s| ==> s[i] == s[1..][i - 1];
      FilterCountStep(where, s, rest);
      if where(s[0]) then [s[0]] + rest else rest
  }

  /** One step of `Filter`'s multiplicity clause: from the tail's result to the whole. */
  lemma FilterCountStep<T>(where: T -> bool, s: seq<T>, rest: seq<T>)
    requires s != []
    requires forall i :: 0 <= i < |rest| ==> rest[i] in s[1..]
    requires forall i :: 0 <= i < |s[1..]| ==>
      multiset(rest)[s[1..][i]] == if where(s[1..][i]) then multiset(s[1..])[s[1..][i]] else 0
    ensures var r := if where(s[0]) then [s[0]] + rest else rest;
      forall i :: 0 <= i < |s| ==> multiset(r)[s[i]] == if where(s[i]) then multiset(s)[s[i]] else 0
  {
    var r := if where(s[0]) then [s[0]] + rest else rest;
    assert s == [s[0]] + s[1..];
    forall i | 0 <= i < |s|
      ensures multiset(r)[s[i]] == if where(s[i]) then multiset(s)[s[i]] else 0
    {
      var y := s[i];
      assert multiset(s)[y] == multiset([s[0]])[y] + multiset(s[1..])[y];
      if y in s[1..] {
        var j :| 0 <= j < |s[1..]| && s[1..][j] == y;
        assert multiset(rest)[y] == if where(y) then multiset(s[1..])[y] else 0;
      } else {
        assert y !in rest;
        assert multiset(rest)[y] == 0 && multiset(s[1..])[y] == 0;
      }
    }
  }

  /**
   * The number of leading rows dropped by `Skip(skip)`. sqlite-net emits `OFFSET skip`,
   * and SQLite treats a negative offset as zero.
   */
  function Offset(skip: int): nat {
    if skip < 0 then 0 else skip
  }

  /**
   * The window `Skip(skip).Take(take)`: drop `Offset(skip)` rows, then keep at most `take`.
   * sqlite-net emits `LIMIT take`, and SQLite reads a negative limit as "no limit".
   */
  function Page<T>(s: seq<T>, skip: int, take: int): (r: seq<T>)
    ensures |s| <= Offset(skip) ==> r == []
    ensures |s| > Offset(skip) ==>
      |r| == if take < 0 || take >= |s| - Offset(skip) then |s| - Offset(skip) else take
    ensures forall i :: 0 <= i < |r| ==> Offset(skip) + i < |s| && r[i] == s[Offset(skip) + i]
  {
    var from := if Offset(skip) < |s| then Offset(skip) else |s|;
    var rest := s[from..];
    if take < 0 || take >= |rest| then rest else rest[..take]
  }

  /** `GetPoetriesAsync(where, skip, take)` over a table. */
  function Query(where: Poetry -> bool, table: seq<Poetry>, skip: int, take: int): (r: seq<Poetry>)
    ensures forall i :: 0 <= i < |r| ==> r[i] in table && where(r[i])
    ensures take >= 0 ==> |r| <= take
    ensures |r| <= |table|
  {
    Page(Filter(where, table), skip, take)
  }

  // ---------------------------------------------------------------------------
  // Order preservation
  // ---------------------------------------------------------------------------

  /** `xs` is obtained from `ys` by deleting elements: the order of `ys` is kept. */
  ghost predicate Subsequence<T>(xs: seq<T>, ys: seq<T>)
    decreases |ys|
  {
    if xs == [] then true
    else if ys == [] then false
    else (xs[0] == ys[0] && Subsequence(xs[1..], ys[1..])) || Subsequence(xs, ys[1..])
  }

  lemma {:induction false} SubsequenceTransitive<T>(xs: seq<T>, ys: seq<T>, zs: seq<T>)
    requires Subsequence(xs, ys) && Subsequence(ys, zs)
    ensures Subsequence(xs, zs)
    decreases |zs|
  {
    if xs != [] {
      if ys[0] == zs[0] && Subsequence(ys[1..], zs[1..]) {
        if xs[0] == ys[0] && Subsequence(xs[1..], ys[1..]) {
          SubsequenceTransitive(xs[1..], ys[1..], zs[1..]);
        } else {
          SubsequenceTransitive(xs, ys[1..], zs[1..]);
        }
      } else {
        SubsequenceTransitive(xs, ys, zs[1..]);
      }
    }
  }

  /** A contiguous slice keeps the order of the sequence it is cut from. */
  lemma {:induction false} SliceIsSubsequence<T>(s: seq<T>, i: nat, j: nat)
    requires i <= j <= |s|
    ensures Subsequence(s[i..j], s)
    decreases |s|
  {
    if i < j {
      if i == 0 {
        assert s[i..j][1..] == s[1..][0..j - 1];
        SliceIsSubsequence(s[1..], 0, j - 1);
      } else {
        var t := s[1..];
        assert |s[i..j]| == |t[i - 1..j - 1]|;
        forall x | 0 <= x < j - i ensures s[i..j][x] == t[i - 1..j - 1][x] {
          assert s[i..j][x] == s[i + x] == t[i - 1 + x];
        }
        assert s[i..j] == t[i - 1..j - 1];
        SliceIsSubsequence(s[1..], i - 1, j - 1);
      }
    }
  }

  /** Filtering keeps table order. */
  lemma {:induction false} FilterIsSubsequence<T>(where: T -> bool, s: seq<T>)
    ensures Subsequence(Filter(where, s), s)
  {
    if s != [] {
      FilterIsSubsequence(where, s[1..]);
      var rest := Filter(where, s[1..]);
      if where(s[0]) {
        assert ([s[0]] + rest)[1..] == rest;
      }
    }
  }

  /** The page is the slice of the filtered rows that starts at the offset. */
  lemma PageIsSlice<T>(s: seq<T>, skip: int, take: int)
    ensures Offset(skip) + |Page(s, skip, take)| <= |s| || |Page(s, skip, take)| == 0
    ensures |Page(s, skip, take)| > 0 ==>
      Page(s, skip, take) == s[Offset(skip)..Offset(skip) + |Page(s, skip, take)|]
  {
  }

  // ---------------------------------------------------------------------------
  // What GetPoetriesAsync promises
  // ---------------------------------------------------------------------------

  /**
   * Every returned row satisfies the predicate, the rows come in table order, and the
   * count is bounded by `take` and by the filtered rows left after the offset.
   */
  lemma QueryProperties(where: Poetry -> bool, table: seq<Poetry>, skip: int, take: int)
    ensures forall i :: 0 <= i < |Query(where, table, skip, take)| ==>
      where(Query(where, table, skip, take)[i])
    ensures Subsequence(Query(where, table, skip, take), table)
    ensures take >= 0 ==> |Query(where, table, skip, take)| <= take
    ensures |Query(where, table, skip, take)| <= |Filter(where, table)|
    ensures |Query(where, table, skip, take)| <= |Filter(where, table)| - Offset(skip) ||
            |Query(where, table, skip, take)| == 0
  {
    var f := Filter(where, table);
    var r := Page(f, skip, take);
    assert Query(where, table, skip, take) == r;
    FilterIsSubsequence(where, table);
    PageIsSubsequence(f, skip, take);
    SubsequenceTransitive(r, f, table);
  }

  /** A page keeps the order of the rows it is cut from. */
  lemma PageIsSubsequence<T>(s: seq<T>, skip: int, take: int)
    ensures Subsequence(Page(s, skip, take), s)
  {
    var r := Page(s, skip, take);
    PageIsSlice(s, skip, take);
    if |r| > 0 {
      SliceIsSubsequence(s, Offset(skip), Offset(skip) + |r|);
    }
  }

  /** Every row satisfies an always-true predicate, so it filters nothing out. */
  lemma {:induction false} FilterAll<T>(where: T -> bool, s: seq<T>)
    requires forall x :: where(x)
    ensures Filter(where, s) == s
  {
    if s != [] {
      FilterAll(where, s[1..]);
      assert [s[0]] + s[1..] == s;
    }
  }

  /**
   * An always-true predicate, no offset and a limit at least the table size (such as
   * `int.MaxValue`) return the whole table.
   */
  lemma QueryWholeTable(where: Poetry -> bool, table: seq<Poetry>, skip: int, take: int)
    requires forall p :: where(p)
    requires skip <= 0
    requires take < 0 || take >= |table|
    ensures Query(where, table, skip, take) == table
  {
    FilterAll(where, table);
  }

  /** The seeded table has 30 rows; `(p => true, 0, int.MaxValue)` returns all 30. */
  lemma QuerySeedTable(table: seq<Poetry>)
    requires |table| == 30
    ensures |Query(p => true, table, 0, IntMaxValue)| == 30
  {
    QueryWholeTable(p => true, table, 0, IntMaxValue);
  }

  /** Offset 25 and limit 10 over 30 matching rows leave the last 5 rows. */
  lemma QueryLastPage(table: seq<Poetry>)
    requires |table| == 30
    ensures Query(p => true, table, 25, 10) == table[25..]
  {
    FilterAll((p: Poetry) => true, table);
  }

  /** Consecutive pages tile the filtered rows: page `[k, k+n)` then `[k+n, k+n+m)`. */
  lemma PagesTile<T>(s: seq<T>, skip: nat, n: nat, m: nat)
    ensures Page(s, skip, n) + Page(s, skip + n, m) == Page(s, skip, n + m)
  {
    var a, b, c := Page(s, skip, n), Page(s, skip + n, m), Page(s, skip, n + m);
    assert |a + b| == |c|;
    forall i | 0 <= i < |c| ensures (a + b)[i] == c[i] {
      if i < |a| {
        assert (a + b)[i] == s[skip + i];
      } else {
        assert (a + b)[i] == b[i - |a|] == s[skip + n + (i - |a|)];
      }
    }
  }
}
