// The recent-search table of the Kiwix reader and its read path: the rows
// stored in RecentSearchRoomEntity, the `search` query (rows whose `id`
// column matches the given ZIM id, newest first) and the `recentSearches`
// projection (distinct terms, at most NUM_RECENT_RESULTS of them).
module RecentSearch {

  datatype Option<T> = None | Some(value: T)

  /** One row of the RecentSearchRoomEntity table. */
  datatype Row = Row(id: int, searchTerm: string, zimId: int)

  /** What the search screen shows for one recent search: only the term. */
  datatype RecentSearchListItem = RecentSearchListItem(searchTerm: string)

  /** A record of the legacy object store that is migrated into the table. */
  datatype LegacyRecord = LegacyRecord(id: int, searchTerm: string)

  /** The most recent searches that `recentSearches` returns. */
  const NUM_RECENT_RESULTS: nat := 100

  // ---------------------------------------------------------------------------
  // Sequences
  // ---------------------------------------------------------------------------

  /** `a` is obtained from `b` by deleting elements; the rest keep their order. */
  predicate IsSubsequence<T(==)>(a: seq<T>, b: seq<T>)
    decreases |b|
  {
    if |a| == 0 then true
    else if |b| == 0 then false
    else (a[0] == b[0] && IsSubsequence(a[1..], b[1..])) || IsSubsequence(a, b[1..])
  }

  /** Where the `i`-th element of a subsequence sits in the whole sequence. */
  lemma {:induction false} SubsequenceIndex<T>(a: seq<T>, b: seq<T>, i: nat) returns (i': nat)
    requires IsSubsequence(a, b) && i < |a|
    ensures i' < |b| && b[i'] == a[i]
    decreases |b|
  {
    if a[0] == b[0] && IsSubsequence(a[1..], b[1..]) {
      if i == 0 {
        i' := 0;
      } else {
        var k := SubsequenceIndex(a[1..], b[1..], i - 1);
        i' := k + 1;
      }
    } else {
      var k := SubsequenceIndex(a, b[1..], i);
      i' := k + 1;
    }
  }

  /** Two elements of a subsequence appear in the whole sequence in the same order. */
  lemma {:induction false} SubsequenceOrder<T>(a: seq<T>, b: seq<T>, i: nat, j: nat) returns (i': nat, j': nat)
    requires IsSubsequence(a, b) && i < j < |a|
    ensures i' < j' < |b| && b[i'] == a[i] && b[j'] == a[j]
    decreases |b|
  {
    if a[0] == b[0] && IsSubsequence(a[1..], b[1..]) {
      if i == 0 {
        var k := SubsequenceIndex(a[1..], b[1..], j - 1);
        i', j' := 0, k + 1;
      } else {
        var x, y := SubsequenceOrder(a[1..], b[1..], i - 1, j - 1);
        i', j' := x + 1, y + 1;
      }
    } else {
      var x, y := SubsequenceOrder(a, b[1..], i, j);
      i', j' := x + 1, y + 1;
    }
  }

  /** A prefix of a subsequence is a subsequence. */
  lemma {:induction false} SubsequencePrefix<T>(a: seq<T>, b: seq<T>, n: nat)
    requires IsSubsequence(a, b) && n <= |a|
    ensures IsSubsequence(a[..n], b)
    decreases |b|
  {
    if n > 0 {
      if a[0] == b[0] && IsSubsequence(a[1..], b[1..]) {
        SubsequencePrefix(a[1..], b[1..], n - 1);
        assert a[..n][1..] == a[1..][..n - 1];
      } else {
        SubsequencePrefix(a, b[1..], n);
      }
    }
  }

  /** Taking at most `n` leading elements, as Kotlin's `take(n)` does. */
  function Take<T>(s: seq<T>, n: nat): (t: seq<T>)
    ensures |t| <= n && |t| <= |s|
    ensures |s| <= n ==> t == s
    ensures |s| > n ==> |t| == n
    ensures t == s[..|t|]
  {
    if |s| <= n then s else s[..n]
  }

  function Reversed<T>(s: seq<T>): seq<T> {
    seq(|s|, i requires 0 <= i < |s| => s[|s| - 1 - i])
  }

  // ---------------------------------------------------------------------------
  // Properties of row sequences
  // ---------------------------------------------------------------------------

  predicate IdsDistinct(s: seq<Row>) {
    forall i, j :: 0 <= i < j < |s| ==> s[i].id != s[j].id
  }

  predicate StrictlyAscendingById(s: seq<Row>) {
    forall i, j :: 0 <= i < j < |s| ==> s[i].id < s[j].id
  }

  predicate DescendingById(s: seq<Row>) {
    forall i, j :: 0 <= i < j < |s| ==> s[i].id >= s[j].id
  }

  predicate StrictlyDescendingById(s: seq<Row>) {
    forall i, j :: 0 <= i < j < |s| ==> s[i].id > s[j].id
  }

  predicate TermsDistinct(s: seq<Row>) {
    forall i, j :: 0 <= i < j < |s| ==> s[i].searchTerm != s[j].searchTerm
  }

  function TermSet(s: seq<Row>): set<string> {
    set r | r in s :: r.searchTerm
  }

  lemma TermSetPrepend(r: Row, s: seq<Row>)
    ensures TermSet([r] + s) == {r.searchTerm} + TermSet(s)
  {
    assert forall x :: x in [r] + s <==> x == r || x in s;
  }

  /** A subsequence keeps every pairwise ordering of the whole sequence. */
  lemma SubsequenceKeepsOrderings(a: seq<Row>, b: seq<Row>)
    requires IsSubsequence(a, b)
    ensures IdsDistinct(b) ==> IdsDistinct(a)
    ensures StrictlyDescendingById(b) ==> StrictlyDescendingById(a)
    ensures StrictlyAscendingById(b) ==> StrictlyAscendingById(a)
  {
    forall i, j | 0 <= i < j < |a|
      ensures IdsDistinct(b) ==> a[i].id != a[j].id
      ensures StrictlyDescendingById(b) ==> a[i].id > a[j].id
      ensures StrictlyAscendingById(b) ==> a[i].id < a[j].id
    {
      var x, y := SubsequenceOrder(a, b, i, j);
    }
  }

  /** Distinct terms: a head whose term is not in the tail, and a tail with distinct terms. */
  lemma TermsDistinctCons(h: Row, t: seq<Row>)
    ensures TermsDistinct([h] + t) <==> TermsDistinct(t) && h.searchTerm !in TermSet(t)
  {
    var c := [h] + t;
    forall j | 1 <= j < |c| ensures c[j] == t[j - 1] {
    }
    if h.searchTerm in TermSet(t) {
      var r :| r in t && r.searchTerm == h.searchTerm;
      var j :| 0 <= j < |t| && t[j] == r;
      assert c[0].searchTerm == c[j + 1].searchTerm;
    }
    if TermsDistinct(c) {
      forall i, j | 0 <= i < j < |t| ensures t[i].searchTerm != t[j].searchTerm {
        assert c[i + 1].searchTerm != c[j + 1].searchTerm;
      }
    }
  }

  /** A distinct-term sequence has as many elements as terms. */
  lemma {:induction false} TermsDistinctCount(s: seq<Row>)
    requires TermsDistinct(s)
    ensures |TermSet(s)| == |s|
  {
    if |s| > 0 {
      var t := s[1..];
      assert s == [s[0]] + t;
      TermSetPrepend(s[0], t);
      TermsDistinctCons(s[0], t);
      TermsDistinctCount(t);
    }
  }

  /** The first index at which term `t` occurs. */
  function FirstIndexOfTerm(s: seq<Row>, t: string): (i: nat)
    requires t in TermSet(s)
    ensures i < |s| && s[i].searchTerm == t
    ensures forall j :: 0 <= j < i ==> s[j].searchTerm != t
  {
    if s[0].searchTerm == t then 0
    else
      assert t in TermSet(s[1..]) by {
        var r :| r in s && r.searchTerm == t;
        assert r in s[1..];
      }
      1 + FirstIndexOfTerm(s[1..], t)
  }

  /** In a list ordered newest first, a term's first occurrence is its newest row. */
  lemma FirstOccurrenceIsNewest(s: seq<Row>, t: string)
    requires DescendingById(s) && t in TermSet(s)
    ensures forall r :: r in s && r.searchTerm == t ==> r.id <= s[FirstIndexOfTerm(s, t)].id
  {
    var i := FirstIndexOfTerm(s, t);
    forall r | r in s && r.searchTerm == t
      ensures r.id <= s[i].id
    {
      var j :| 0 <= j < |s| && s[j] == r;
      assert i <= j;
    }
  }

  // ---------------------------------------------------------------------------
  // search: WHERE id LIKE :zimId ORDER BY id DESC
  // ---------------------------------------------------------------------------

  /**
   * The query's filter. It compares the row's `id` column (not `zimId`) with
   * the argument through SQL `LIKE`, whose matching is the parameter `like`.
   * A null argument makes the comparison NULL, which selects no row.
   */
  predicate Matches(like: (int, string) -> bool, row: Row, zimId: Option<string>) {
    zimId.Some? && like(row.id, zimId.value)
  }

  /** The rows the WHERE clause selects, in storage order. */
  function Matching(rows: seq<Row>, like: (int, string) -> bool, zimId: Option<string>): (m: seq<Row>)
    ensures forall r :: r in m <==> r in rows && Matches(like, r, zimId)
    ensures IsSubsequence(m, rows)
  {
    if rows == [] then []
    else
      var rest := Matching(rows[1..], like, zimId);
      if Matches(like, rows[0], zimId) then [rows[0]] + rest else rest
  }

  /** Two sequences with the same multiset have the same members. */
  lemma SameMembers(a: seq<Row>, b: seq<Row>)
    requires multiset(a) == multiset(b)
    ensures forall x :: x in a <==> x in b
  {
    forall x ensures x in a <==> x in b {
      assert x in a <==> x in multiset(a);
      assert x in b <==> x in multiset(b);
    }
  }

  /** The tail of a list keeps its orderings, and its head bounds the tail. */
  lemma HeadAndTail(s: seq<Row>)
    requires s != []
    ensures DescendingById(s) ==> DescendingById(s[1..]) && forall x :: x in s[1..] ==> x.id <= s[0].id
    ensures IdsDistinct(s) ==> IdsDistinct(s[1..]) && forall x :: x in s[1..] ==> x.id != s[0].id
  {
    var tail := s[1..];
    forall i, j | 0 <= i < j < |tail| ensures tail[i] == s[i + 1] && tail[j] == s[j + 1] {
    }
    forall x | x in tail ensures exists j :: 1 <= j < |s| && s[j] == x {
      var j :| 0 <= j < |tail| && tail[j] == x;
      assert s[j + 1] == x;
    }
  }

  /** The members of a nonempty list are its head and the members of its tail. */
  lemma HeadMembers(s: seq<Row>)
    ensures s != [] ==> forall x :: x in s <==> x == s[0] || x in s[1..]
    ensures s != [] ==> DescendingById(s) ==> DescendingById(s[1..]) && forall x :: x in s ==> x.id <= s[0].id
    ensures s != [] ==> StrictlyDescendingById(s) ==> StrictlyDescendingById(s[1..]) && forall x :: x in s[1..] ==> x.id < s[0].id
  {
    if s != [] {
      assert s == [s[0]] + s[1..];
      HeadAndTail(s);
    }
  }

  /** A head no older (strictly newer) than every row of an ordered list keeps it ordered. */
  lemma PrependKeepsOrder(h: Row, t: seq<Row>)
    ensures DescendingById(t) && (forall x :: x in t ==> x.id <= h.id) ==> DescendingById([h] + t)
    ensures StrictlyDescendingById(t) && (forall x :: x in t ==> x.id < h.id) ==> StrictlyDescendingById([h] + t)
  {
    var c := [h] + t;
    forall j | 1 <= j < |c| ensures c[j] == t[j - 1] && c[j] in t {
    }
  }

  /** Inserting a row into a list ordered by descending id. */
  function InsertByIdDesc(r: Row, s: seq<Row>): (t: seq<Row>)
    ensures multiset(t) == multiset(s) + multiset{r}
  {
    if s == [] || r.id >= s[0].id then [r] + s
    else
      assert s == [s[0]] + s[1..];
      [s[0]] + InsertByIdDesc(r, s[1..])
  }

  /** Inserting keeps a list ordered by descending id. */
  lemma {:induction false} InsertKeepsDescending(r: Row, s: seq<Row>)
    requires DescendingById(s)
    ensures DescendingById(InsertByIdDesc(r, s))
  {
    HeadMembers(s);
    if s == [] || r.id >= s[0].id {
      PrependKeepsOrder(r, s);
    } else {
      var t' := InsertByIdDesc(r, s[1..]);
      InsertKeepsDescending(r, s[1..]);
      SameMembers(t', s[1..] + [r]);
      PrependKeepsOrder(s[0], t');
    }
  }

  /** Inserting a row with a fresh id keeps a list strictly ordered. */
  lemma {:induction false} InsertKeepsStrict(r: Row, s: seq<Row>)
    ensures StrictlyDescendingById(s) && (forall x :: x in s ==> x.id != r.id) ==>
      StrictlyDescendingById(InsertByIdDesc(r, s))
  {
    if StrictlyDescendingById(s) && forall x :: x in s ==> x.id != r.id {
      HeadMembers(s);
      if s == [] || r.id >= s[0].id {
        PrependKeepsOrder(r, s);
      } else {
        var t' := InsertByIdDesc(r, s[1..]);
        InsertKeepsStrict(r, s[1..]);
        SameMembers(t', s[1..] + [r]);
        PrependKeepsOrder(s[0], t');
      }
    }
  }

  /** ORDER BY id DESC. */
  function SortByIdDesc(s: seq<Row>): (t: seq<Row>)
    ensures multiset(t) == multiset(s)
    ensures DescendingById(t)
    ensures IdsDistinct(s) ==> StrictlyDescendingById(t)
  {
    if s == [] then []
    else
      var t' := SortByIdDesc(s[1..]);
      assert s == [s[0]] + s[1..];
      HeadAndTail(s);
      SameMembers(t', s[1..]);
      InsertKeepsDescending(s[0], t');
      InsertKeepsStrict(s[0], t');
      InsertByIdDesc(s[0], t')
  }

  /**
   * `search(zimId)`: every row that matches, and only those, newest (highest
   * id) first; strictly newest first when the table's ids are distinct.
   */
  function Search(rows: seq<Row>, like: (int, string) -> bool, zimId: Option<string>): (s: seq<Row>)
    ensures forall r :: r in s <==> r in rows && Matches(like, r, zimId)
    ensures multiset(s) == multiset(Matching(rows, like, zimId))
    ensures DescendingById(s)
    ensures IdsDistinct(rows) ==> StrictlyDescendingById(s)
  {
    var m := Matching(rows, like, zimId);
    SubsequenceKeepsOrderings(m, rows);
    var s := SortByIdDesc(m);
    assert forall r :: r in s <==> r in m by {
      forall r ensures r in s <==> r in m {
        assert r in s <==> r in multiset(s);
        assert r in m <==> r in multiset(m);
      }
    }
    s
  }

  /** A row older than every row of an ordered list goes to its end. */
  lemma {:induction false} InsertOldest(r: Row, t: seq<Row>)
    requires forall x :: x in t ==> x.id > r.id
    ensures InsertByIdDesc(r, t) == t + [r]
  {
    if t != [] {
      assert t[0] in t;
      assert forall x :: x in t[1..] ==> x in t;
      InsertOldest(r, t[1..]);
      assert t == [t[0]] + t[1..];
    }
  }

  /** Sorting rows stored oldest first is reversing them. */
  lemma {:induction false} SortAscending(s: seq<Row>)
    requires StrictlyAscendingById(s)
    ensures SortByIdDesc(s) == Reversed(s)
  {
    if s != [] {
      AscendingTail(s);
      SortAscending(s[1..]);
      InsertOldest(s[0], Reversed(s[1..]));
      assert Reversed(s) == Reversed(s[1..]) + [s[0]];
    }
  }

  lemma AscendingTail(s: seq<Row>)
    requires StrictlyAscendingById(s) && s != []
    ensures StrictlyAscendingById(s[1..])
    ensures forall x :: x in Reversed(s[1..]) ==> x.id > s[0].id
  {
    var tail := s[1..];
    forall i, j | 0 <= i < j < |tail| ensures tail[i].id < tail[j].id {
      assert tail[i] == s[i + 1] && tail[j] == s[j + 1];
    }
    forall x | x in Reversed(tail) ensures x.id > s[0].id {
      var i :| 0 <= i < |Reversed(tail)| && Reversed(tail)[i] == x;
      assert x == s[|s| - 1 - i];
    }
  }

  /**
   * On a table whose rows are stored in increasing id order, as inserts with
   * fresh increasing ids leave it, `search` is the matching rows in reverse
   * storage order.
   */
  lemma SearchOfAscendingRows(rows: seq<Row>, like: (int, string) -> bool, zimId: Option<string>)
    requires StrictlyAscendingById(rows)
    ensures Search(rows, like, zimId) == Reversed(Matching(rows, like, zimId))
  {
    SubsequenceKeepsOrderings(Matching(rows, like, zimId), rows);
    SortAscending(Matching(rows, like, zimId));
  }

  // ---------------------------------------------------------------------------
  // recentSearches: distinctBy(searchTerm).take(NUM_RECENT_RESULTS).map(term)
  // ---------------------------------------------------------------------------

  /**
   * Kotlin's `distinctBy { it.searchTerm }` started with the terms `seen`
   * already taken: the first row of every term not yet seen, in order.
   */
  function DistinctByTerm(s: seq<Row>, seen: set<string>): (d: seq<Row>)
    ensures IsSubsequence(d, s)
    ensures TermsDistinct(d)
    ensures TermSet(d) == TermSet(s) - seen
  {
    if s == [] then []
    else
      assert s == [s[0]] + s[1..];
      TermSetPrepend(s[0], s[1..]);
      if s[0].searchTerm in seen then DistinctByTerm(s[1..], seen)
      else
        var rest := DistinctByTerm(s[1..], seen + {s[0].searchTerm});
        TermSetPrepend(s[0], rest);
        TermsDistinctCons(s[0], rest);
        [s[0]] + rest
  }

  /** Each row `distinctBy` keeps is the first row of its term. */
  lemma {:induction false} DistinctKeepsFirstOccurrence(s: seq<Row>, seen: set<string>, k: nat)
    requires k < |DistinctByTerm(s, seen)|
    ensures DistinctByTerm(s, seen)[k].searchTerm in TermSet(s)
    ensures DistinctByTerm(s, seen)[k] == s[FirstIndexOfTerm(s, DistinctByTerm(s, seen)[k].searchTerm)]
  {
    var d := DistinctByTerm(s, seen);
    var t := d[k].searchTerm;
    assert t in TermSet(d);
    var tail := s[1..];
    if s[0].searchTerm in seen {
      assert d == DistinctByTerm(tail, seen);
      DistinctKeepsFirstOccurrence(tail, seen, k);
      assert t != s[0].searchTerm;
      assert FirstIndexOfTerm(s, t) == 1 + FirstIndexOfTerm(tail, t);
    } else if k > 0 {
      var rest := DistinctByTerm(tail, seen + {s[0].searchTerm});
      assert d == [s[0]] + rest;
      assert d[k] == rest[k - 1];
      assert t in TermSet(rest);
      DistinctKeepsFirstOccurrence(tail, seen + {s[0].searchTerm}, k - 1);
      assert t != s[0].searchTerm;
      assert FirstIndexOfTerm(s, t) == 1 + FirstIndexOfTerm(tail, t);
    }
  }

  /** The de-duplicated result of `search`, before it is cut to size. */
  function RecentRows(rows: seq<Row>, like: (int, string) -> bool, zimId: Option<string>): seq<Row> {
    DistinctByTerm(Search(rows, like, zimId), {})
  }

  /** `.map { RecentSearchListItem(it.searchTerm) }` */
  function ToListItems(d: seq<Row>): (items: seq<RecentSearchListItem>)
    ensures |items| == |d|
    ensures forall k :: 0 <= k < |d| ==> items[k].searchTerm == d[k].searchTerm
  {
    if d == [] then [] else [RecentSearchListItem(d[0].searchTerm)] + ToListItems(d[1..])
  }

  function ItemTerms(items: seq<RecentSearchListItem>): set<string> {
    set it | it in items :: it.searchTerm
  }

  /**
   * `recentSearches(zimId)`: at most NUM_RECENT_RESULTS terms, no term twice,
   * each one the term of a matching row.
   */
  function RecentSearches(rows: seq<Row>, like: (int, string) -> bool, zimId: Option<string>): (items: seq<RecentSearchListItem>)
    ensures |items| <= NUM_RECENT_RESULTS
    ensures forall i, j :: 0 <= i < j < |items| ==> items[i].searchTerm != items[j].searchTerm
    ensures ItemTerms(items) <= TermSet(Matching(rows, like, zimId))
  {
    var d := RecentRows(rows, like, zimId);
    var items := ToListItems(Take(d, NUM_RECENT_RESULTS));
    assert ItemTerms(items) <= TermSet(Matching(rows, like, zimId)) by {
      forall x | x in ItemTerms(items) ensures x in TermSet(Matching(rows, like, zimId)) {
        var it :| it in items && it.searchTerm == x;
        var k :| 0 <= k < |items| && items[k] == it;
        assert d[k] in d;
        assert x in TermSet(d);
        var r :| r in Search(rows, like, zimId) && r.searchTerm == x;
        assert r in Matching(rows, like, zimId);
      }
    }
    items
  }

  /** `.map` to list items keeps a subsequence a subsequence. */
  lemma {:induction false} ToListItemsKeepsSubsequence(a: seq<Row>, b: seq<Row>)
    requires IsSubsequence(a, b)
    ensures IsSubsequence(ToListItems(a), ToListItems(b))
    decreases |b|
  {
    if |a| > 0 {
      assert ToListItems(b)[1..] == ToListItems(b[1..]);
      if a[0] == b[0] && IsSubsequence(a[1..], b[1..]) {
        ToListItemsKeepsSubsequence(a[1..], b[1..]);
        assert ToListItems(a)[1..] == ToListItems(a[1..]);
      } else {
        ToListItemsKeepsSubsequence(a, b[1..]);
      }
    }
  }

  /** The list items carry exactly the terms of the rows they come from. */
  lemma ItemTermsOfListItems(d: seq<Row>)
    ensures ItemTerms(ToListItems(d)) == TermSet(d)
  {
    var items := ToListItems(d);
    forall x | x in TermSet(d) ensures x in ItemTerms(items) {
      var r :| r in d && r.searchTerm == x;
      var k :| 0 <= k < |d| && d[k] == r;
      assert items[k] in items;
    }
    forall x | x in ItemTerms(items) ensures x in TermSet(d) {
      var it :| it in items && it.searchTerm == x;
      var k :| 0 <= k < |items| && items[k] == it;
      assert d[k] in d;
    }
  }

  /** `search` and its WHERE clause select the same terms. */
  lemma SearchTerms(rows: seq<Row>, like: (int, string) -> bool, zimId: Option<string>)
    ensures TermSet(Search(rows, like, zimId)) == TermSet(Matching(rows, like, zimId))
  {
    var s, m := Search(rows, like, zimId), Matching(rows, like, zimId);
    assert forall r :: r in s <==> r in m;
  }

  /**
   * `recentSearches` keeps the order of `search`: its items are a
   * subsequence of the terms `search` returns, newest first.
   */
  lemma RecentSearchesKeepSearchOrder(rows: seq<Row>, like: (int, string) -> bool, zimId: Option<string>)
    ensures IsSubsequence(RecentSearches(rows, like, zimId), ToListItems(Search(rows, like, zimId)))
  {
    var s := Search(rows, like, zimId);
    var d := RecentRows(rows, like, zimId);
    var kept := Take(d, NUM_RECENT_RESULTS);
    SubsequencePrefix(d, s, |kept|);
    ToListItemsKeepsSubsequence(kept, s);
  }

  /**
   * "Newest occurrence wins": every row the de-duplication keeps is a
   * matching row, no matching row of the same term is newer, and when ids
   * are distinct the kept rows are strictly newest first.
   */
  lemma NewestOccurrenceWins(rows: seq<Row>, like: (int, string) -> bool, zimId: Option<string>)
    ensures forall k :: 0 <= k < |RecentRows(rows, like, zimId)| ==>
      RecentRows(rows, like, zimId)[k] in rows && Matches(like, RecentRows(rows, like, zimId)[k], zimId)
    ensures forall k, r ::
      (0 <= k < |RecentRows(rows, like, zimId)| && r in rows && Matches(like, r, zimId)
       && r.searchTerm == RecentRows(rows, like, zimId)[k].searchTerm) ==> r.id <= RecentRows(rows, like, zimId)[k].id
    ensures IdsDistinct(rows) ==> StrictlyDescendingById(RecentRows(rows, like, zimId))
  {
    var s := Search(rows, like, zimId);
    var d := RecentRows(rows, like, zimId);
    SubsequenceKeepsOrderings(d, s);
    forall k | 0 <= k < |d|
      ensures d[k] in rows && Matches(like, d[k], zimId)
      ensures forall r :: r in rows && Matches(like, r, zimId) && r.searchTerm == d[k].searchTerm ==> r.id <= d[k].id
    {
      DistinctKeepsFirstOccurrence(s, {}, k);
      FirstOccurrenceIsNewest(s, d[k].searchTerm);
      assert d[k] in s;
    }
  }

  /**
   * If the matching rows hold at most NUM_RECENT_RESULTS distinct terms,
   * `recentSearches` returns every one of them; otherwise it returns exactly
   * NUM_RECENT_RESULTS terms.
   */
  lemma RecentSearchesComplete(rows: seq<Row>, like: (int, string) -> bool, zimId: Option<string>)
    ensures |TermSet(Matching(rows, like, zimId))| <= NUM_RECENT_RESULTS ==>
      ItemTerms(RecentSearches(rows, like, zimId)) == TermSet(Matching(rows, like, zimId))
    ensures |TermSet(Matching(rows, like, zimId))| > NUM_RECENT_RESULTS ==>
      |RecentSearches(rows, like, zimId)| == NUM_RECENT_RESULTS
  {
    var d := RecentRows(rows, like, zimId);
    var kept := Take(d, NUM_RECENT_RESULTS);
    assert RecentSearches(rows, like, zimId) == ToListItems(kept);
    SearchTerms(rows, like, zimId);
    TermsDistinctCount(d);
    ItemTermsOfListItems(kept);
  }

  /**
   * The terms `recentSearches` drops are the oldest ones: with distinct ids,
   * every matching row whose term is not returned is older than the newest
   * row of each returned term.
   */
  lemma RecentSearchesDropOldest(rows: seq<Row>, like: (int, string) -> bool, zimId: Option<string>)
    requires IdsDistinct(rows)
    ensures forall r, k ::
      (r in rows && Matches(like, r, zimId) && r.searchTerm !in ItemTerms(RecentSearches(rows, like, zimId))
       && 0 <= k < |RecentSearches(rows, like, zimId)|) ==> r.id < RecentRows(rows, like, zimId)[k].id
  {
    var items := RecentSearches(rows, like, zimId);
    forall r, k | r in rows && Matches(like, r, zimId) && r.searchTerm !in ItemTerms(items) && 0 <= k < |items|
      ensures r.id < RecentRows(rows, like, zimId)[k].id
    {
      DroppedRowIsOlder(rows, like, zimId, r, k);
    }
  }

  /** A matching row whose term is dropped has its term after the kept prefix of `RecentRows`. */
  lemma DroppedTermIndex(rows: seq<Row>, like: (int, string) -> bool, zimId: Option<string>, r: Row)
      returns (k': nat)
    requires r in rows && Matches(like, r, zimId)
    requires r.searchTerm !in ItemTerms(RecentSearches(rows, like, zimId))
    ensures k' < |RecentRows(rows, like, zimId)| && RecentRows(rows, like, zimId)[k'].searchTerm == r.searchTerm
    ensures |RecentSearches(rows, like, zimId)| <= k'
  {
    var d := RecentRows(rows, like, zimId);
    var kept := Take(d, NUM_RECENT_RESULTS);
    assert RecentSearches(rows, like, zimId) == ToListItems(kept);
    ItemTermsOfListItems(kept);
    SearchTerms(rows, like, zimId);
    var t := r.searchTerm;
    assert r in Matching(rows, like, zimId);
    assert t in TermSet(d);
    var x :| x in d && x.searchTerm == t;
    k' :| 0 <= k' < |d| && d[k'] == x;
    assert forall i :: 0 <= i < |kept| ==> kept[i].searchTerm in TermSet(kept);
  }

  lemma DroppedRowIsOlder(rows: seq<Row>, like: (int, string) -> bool, zimId: Option<string>, r: Row, k: nat)
    requires IdsDistinct(rows) && r in rows && Matches(like, r, zimId)
    requires r.searchTerm !in ItemTerms(RecentSearches(rows, like, zimId))
    requires k < |RecentSearches(rows, like, zimId)|
    ensures r.id < RecentRows(rows, like, zimId)[k].id
  {
    var s := Search(rows, like, zimId);
    var d := RecentRows(rows, like, zimId);
    var k' := DroppedTermIndex(rows, like, zimId, r);
    DistinctKeepsFirstOccurrence(s, {}, k');
    FirstOccurrenceIsNewest(s, r.searchTerm);
    assert r in s;
    assert r.id <= d[k'].id;
    SubsequenceKeepsOrderings(d, s);
    assert d[k].id > d[k'].id;
  }

  /** A null ZIM id selects nothing: both reads are empty. */
  lemma NullZimIdReadsNothing(rows: seq<Row>, like: (int, string) -> bool)
    ensures Search(rows, like, None) == []
    ensures RecentSearches(rows, like, None) == []
  {
    MatchingNullZimId(rows, like);
    assert |multiset(Search(rows, like, None))| == 0;
  }

  lemma {:induction false} MatchingNullZimId(rows: seq<Row>, like: (int, string) -> bool)
    ensures Matching(rows, like, None) == []
  {
    if rows != [] {
      MatchingNullZimId(rows[1..], like);
    }
  }

  /**
   * A freshly saved row with the largest id, if it matches, is the first row
   * `search` returns and its term the first item of `recentSearches`.
   */
  lemma SavedSearchReadFirst(rows: seq<Row>, row: Row, like: (int, string) -> bool, zimId: Option<string>)
    requires forall r :: r in rows ==> r.id < row.id
    requires Matches(like, row, zimId)
    ensures |Search(rows + [row], like, zimId)| > 0 && Search(rows + [row], like, zimId)[0] == row
    ensures |RecentSearches(rows + [row], like, zimId)| > 0
    ensures RecentSearches(rows + [row], like, zimId)[0] == RecentSearchListItem(row.searchTerm)
  {
    var s := Search(rows + [row], like, zimId);
    assert row in rows + [row];
    assert row in s;
    var j :| 0 <= j < |s| && s[j] == row;
    assert s[0] in s;
    assert s[0] in rows + [row];
    assert s[0].id >= s[j].id;
    var d := RecentRows(rows + [row], like, zimId);
    assert d == DistinctByTerm(s, {});
    assert d[0] == row;
  }

  // ---------------------------------------------------------------------------
  // DELETE FROM RecentSearchRoomEntity WHERE searchTerm = :searchTerm
  // ---------------------------------------------------------------------------

  /** The rows that survive deleting `term`: all rows of any other term. */
  function WithoutTerm(rows: seq<Row>, term: string): (kept: seq<Row>)
    ensures forall r :: r in kept <==> r in rows && r.searchTerm != term
    ensures IsSubsequence(kept, rows)
  {
    if rows == [] then []
    else
      var rest := WithoutTerm(rows[1..], term);
      if rows[0].searchTerm != term then [rows[0]] + rest else rest
  }

  /** Deleting a term that no row has leaves the table as it was. */
  lemma {:induction false} DeleteAbsentTermIsNoOp(rows: seq<Row>, term: string)
    requires term !in TermSet(rows)
    ensures WithoutTerm(rows, term) == rows
  {
    if rows != [] {
      assert rows == [rows[0]] + rows[1..];
      TermSetPrepend(rows[0], rows[1..]);
      DeleteAbsentTermIsNoOp(rows[1..], term);
    }
  }

  /** Deleting the same term twice is deleting it once. */
  lemma DeleteIsIdempotent(rows: seq<Row>, term: string)
    ensures WithoutTerm(WithoutTerm(rows, term), term) == WithoutTerm(rows, term)
  {
    var kept := WithoutTerm(rows, term);
    assert term !in TermSet(kept);
    DeleteAbsentTermIsNoOp(kept, term);
  }

  /** After a term is deleted, no read returns it, whatever the ZIM id. */
  lemma DeletedTermIsNeverRead(rows: seq<Row>, term: string, like: (int, string) -> bool, zimId: Option<string>)
    ensures forall r :: r in Search(WithoutTerm(rows, term), like, zimId) ==> r.searchTerm != term
    ensures term !in ItemTerms(RecentSearches(WithoutTerm(rows, term), like, zimId))
  {
  }

  // ---------------------------------------------------------------------------
  // A worked example
  // ---------------------------------------------------------------------------

  /** The rows of "cat", "dog", "cat", "bird" saved with ids 1 to 4. */
  function ExampleRows(): seq<Row> {
    [Row(1, "cat", 0), Row(2, "dog", 0), Row(3, "cat", 0), Row(4, "bird", 0)]
  }

  lemma ExampleMatching(like: (int, string) -> bool, zimId: string)
    requires forall id :: 1 <= id <= 4 ==> like(id, zimId)
    ensures Matching(ExampleRows(), like, Some(zimId)) == ExampleRows()
  {
    var q, r := Some(zimId), ExampleRows();
    assert Matches(like, r[0], q) && Matches(like, r[1], q) && Matches(like, r[2], q) && Matches(like, r[3], q);
    assert Matching(r[3..], like, q) == r[3..];
    assert Matching(r[2..], like, q) == r[2..];
    assert Matching(r[1..], like, q) == r[1..];
  }

  lemma ExampleDistinct()
    ensures var r := ExampleRows(); DistinctByTerm([r[3], r[2], r[1], r[0]], {}) == [r[3], r[2], r[1]]
  {
    var r0, r1, r2, r3 := Row(1, "cat", 0), Row(2, "dog", 0), Row(3, "cat", 0), Row(4, "bird", 0);
    assert ExampleRows() == [r0, r1, r2, r3];
    assert DistinctByTerm([r0], {"bird", "cat", "dog"}) == [];
    assert [r1, r0][1..] == [r0];
    assert {"bird", "cat"} + {"dog"} == {"bird", "cat", "dog"};
    assert DistinctByTerm([r1, r0], {"bird", "cat"}) == [r1];
    assert [r2, r1, r0][1..] == [r1, r0];
    assert {"bird"} + {"cat"} == {"bird", "cat"};
    assert DistinctByTerm([r2, r1, r0], {"bird"}) == [r2, r1];
    assert [r3, r2, r1, r0][1..] == [r2, r1, r0];
    assert {} + {"bird"} == {"bird"};
  }

  lemma ExampleOrder()
    ensures StrictlyAscendingById(ExampleRows())
    ensures var r := ExampleRows(); Reversed(r) == [r[3], r[2], r[1], r[0]]
  {
  }

  lemma ExampleSearch(like: (int, string) -> bool, zimId: string)
    requires forall id :: 1 <= id <= 4 ==> like(id, zimId)
    ensures var r := ExampleRows(); Search(r, like, Some(zimId)) == [r[3], r[2], r[1], r[0]]
  {
    ExampleOrder();
    ExampleMatching(like, zimId);
    SearchOfAscendingRows(ExampleRows(), like, Some(zimId));
  }

  lemma ExampleRecentRows(like: (int, string) -> bool, zimId: string)
    requires forall id :: 1 <= id <= 4 ==> like(id, zimId)
    ensures var r := ExampleRows(); RecentRows(r, like, Some(zimId)) == [r[3], r[2], r[1]]
  {
    ExampleSearch(like, zimId);
    ExampleDistinct();
  }

  lemma ExampleListItems()
    ensures var r := ExampleRows();
      ToListItems([r[3], r[2], r[1]]) == [RecentSearchListItem("bird"), RecentSearchListItem("cat"), RecentSearchListItem("dog")]
  {
    var r0, r1, r2, r3 := Row(1, "cat", 0), Row(2, "dog", 0), Row(3, "cat", 0), Row(4, "bird", 0);
    assert ExampleRows() == [r0, r1, r2, r3];
    assert [r3, r2, r1][1..] == [r2, r1] && [r2, r1][1..] == [r1];
    assert ToListItems([r1]) == [RecentSearchListItem("dog")];
    assert ToListItems([r2, r1]) == [RecentSearchListItem("cat"), RecentSearchListItem("dog")];
  }

  /**
   * Rows for "cat", "dog", "cat", "bird" with ids 1 to 4, all matching,
   * read back as bird, cat, dog.
   */
  lemma WorkedExample(like: (int, string) -> bool, zimId: string)
    requires forall id :: 1 <= id <= 4 ==> like(id, zimId)
    ensures RecentSearches(ExampleRows(), like, Some(zimId))
      == [RecentSearchListItem("bird"), RecentSearchListItem("cat"), RecentSearchListItem("dog")]
  {
    ExampleRecentRows(like, zimId);
    ExampleListItems();
  }
}
