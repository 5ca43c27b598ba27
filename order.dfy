/** Sort orders, pagination and the store's natural order.
 *
 *  Every sort the store performs (`cursor.sort([...])`) is modelled by a sort
 *  key: a sequence of integer ranks compared lexicographically, then a name
 *  compared by code points, then the document id. The id makes the key total;
 *  where the store leaves the order of ties unspecified the model orders them
 *  by ascending id, which is also the model of the store's natural order
 *  (ObjectIds grow with their creation time).
 */
module Order {
  import opened Ids
  import opened Maybe

  /** Lexicographic order on integer sequences; a proper prefix comes first. */
  function SeqLess(a: seq<int>, b: seq<int>): bool
    decreases |a|
  {
    b != [] && (a == [] || a[0] < b[0] || (a[0] == b[0] && SeqLess(a[1..], b[1..])))
  }

  lemma {:induction false} SeqLessIrreflexive(a: seq<int>)
    ensures !SeqLess(a, a)
    decreases |a|
  {
    if a != [] {
      SeqLessIrreflexive(a[1..]);
    }
  }

  lemma {:induction false} SeqLessTransitive(a: seq<int>, b: seq<int>, c: seq<int>)
    requires SeqLess(a, b) && SeqLess(b, c)
    ensures SeqLess(a, c)
    decreases |a|
  {
    if a != [] && a[0] == b[0] && b[0] == c[0] {
      SeqLessTransitive(a[1..], b[1..], c[1..]);
    }
  }

  lemma {:induction false} SeqLessTotal(a: seq<int>, b: seq<int>)
    requires a != b
    ensures SeqLess(a, b) || SeqLess(b, a)
    decreases |a|
  {
    if a != [] && b != [] && a[0] == b[0] {
      assert a == [a[0]] + a[1..] && b == [b[0]] + b[1..];
      SeqLessTotal(a[1..], b[1..]);
    }
  }

  /** The code points of a string: string comparison in the store is by code point. */
  function Codes(s: string): (c: seq<int>)
    ensures |c| == |s|
  {
    seq(|s|, i requires 0 <= i < |s| => s[i] as int)
  }

  lemma CodesInjective(s: string, t: string)
    requires Codes(s) == Codes(t)
    ensures s == t
  {
    assert |s| == |t|;
    forall i | 0 <= i < |s| ensures s[i] == t[i] {
      assert Codes(s)[i] == Codes(t)[i];
    }
  }

  /** A sort key: ranks first, then a name, then the document id. */
  datatype Key = Key(ranks: seq<int>, name: seq<int>, id: seq<int>)

  function KeyLess(x: Key, y: Key): bool {
    SeqLess(x.ranks, y.ranks)
    || (x.ranks == y.ranks && (SeqLess(x.name, y.name) || (x.name == y.name && SeqLess(x.id, y.id))))
  }

  lemma KeyLessIrreflexive(x: Key)
    ensures !KeyLess(x, x)
  {
    SeqLessIrreflexive(x.ranks);
    SeqLessIrreflexive(x.name);
    SeqLessIrreflexive(x.id);
  }

  lemma KeyLessTransitive(x: Key, y: Key, z: Key)
    requires KeyLess(x, y) && KeyLess(y, z)
    ensures KeyLess(x, z)
  {
    if SeqLess(x.ranks, y.ranks) && SeqLess(y.ranks, z.ranks) {
      SeqLessTransitive(x.ranks, y.ranks, z.ranks);
    } else if x.ranks == y.ranks == z.ranks {
      if SeqLess(x.name, y.name) && SeqLess(y.name, z.name) {
        SeqLessTransitive(x.name, y.name, z.name);
      } else if x.name == y.name == z.name {
        SeqLessTransitive(x.id, y.id, z.id);
      }
    }
  }

  lemma KeyLessTotal(x: Key, y: Key)
    requires x.id != y.id
    ensures KeyLess(x, y) || KeyLess(y, x)
  {
    if x.ranks != y.ranks {
      SeqLessTotal(x.ranks, y.ranks);
    } else if x.name != y.name {
      SeqLessTotal(x.name, y.name);
    } else {
      SeqLessTotal(x.id, y.id);
    }
  }

  /** A key function whose last component is the document's own id. */
  ghost predicate Tagged(key: Oid -> Key) {
    forall a: Oid :: key(a).id == Codes(a)
  }

  lemma TaggedTotal(key: Oid -> Key, a: Oid, b: Oid)
    requires Tagged(key) && a != b
    ensures KeyLess(key(a), key(b)) || KeyLess(key(b), key(a))
  {
    if key(a).id == key(b).id {
      CodesInjective(a, b);
    }
    KeyLessTotal(key(a), key(b));
  }

  predicate IsLeast(x: Oid, S: set<Oid>, key: Oid -> Key) {
    x in S && forall y :: y in S && y != x ==> KeyLess(key(x), key(y))
  }

  lemma {:induction false} LeastExists(S: set<Oid>, key: Oid -> Key)
    requires S != {} && Tagged(key)
    ensures exists x :: IsLeast(x, S, key)
    decreases |S|
  {
    var a :| a in S;
    if S == {a} {
      assert IsLeast(a, S, key);
    } else {
      var rest := S - {a};
      LeastExists(rest, key);
      var m :| IsLeast(m, rest, key);
      TaggedTotal(key, a, m);
      if KeyLess(key(a), key(m)) {
        forall y | y in S && y != a ensures KeyLess(key(a), key(y)) {
          if y != m {
            KeyLessTransitive(key(a), key(m), key(y));
          }
        }
        assert IsLeast(a, S, key);
      } else {
        assert IsLeast(m, S, key);
      }
    }
  }

  lemma LeastUnique(S: set<Oid>, key: Oid -> Key)
    ensures forall x, y :: IsLeast(x, S, key) && IsLeast(y, S, key) ==> x == y
  {
    forall x, y | IsLeast(x, S, key) && IsLeast(y, S, key) ensures x == y {
      if x != y {
        KeyLessTransitive(key(x), key(y), key(x));
        KeyLessIrreflexive(key(x));
      }
    }
  }

  /** The first document of `S` in the order of `key`. */
  function Least(S: set<Oid>, key: Oid -> Key): (x: Oid)
    requires S != {} && Tagged(key)
    ensures x in S
    ensures forall y :: y in S && y != x ==> KeyLess(key(x), key(y))
  {
    LeastExists(S, key);
    LeastUnique(S, key);
    var x :| IsLeast(x, S, key); x
  }

  /** Strictly ascending in the order of `key` (so also free of repetitions). */
  ghost predicate Ascending(r: seq<Oid>, key: Oid -> Key) {
    forall i, j :: 0 <= i < j < |r| ==> KeyLess(key(r[i]), key(r[j]))
  }

  /** The documents of `S`, sorted by `key`. */
  function SortBy(S: set<Oid>, key: Oid -> Key): (r: seq<Oid>)
    requires Tagged(key)
    ensures |r| == |S|
    ensures forall x :: x in r <==> x in S
    ensures Ascending(r, key)
    decreases |S|
  {
    if S == {} then []
    else
      var x := Least(S, key);
      var rest := SortBy(S - {x}, key);
      var r := [x] + rest;
      forall i, j | 0 <= i < j < |r| ensures KeyLess(key(r[i]), key(r[j])) {
        assert r[j] == rest[j - 1] && r[j] in S - {x};
        if i > 0 {
          assert r[i] == rest[i - 1];
        }
      }
      r
  }

  /** The natural order of a collection: ascending id. */
  function Natural(a: Oid): Key {
    Key([], [], Codes(a))
  }

  lemma NaturalTagged()
    ensures Tagged(Natural)
  {
  }

  /** find_one / delete_one: the first matching document in natural order. */
  function FirstOf(S: set<Oid>): (x: Oid)
    requires S != {}
    ensures x in S
    ensures forall y :: y in S && y != x ==> SeqLess(Codes(x), Codes(y))
  {
    NaturalTagged();
    Least(S, Natural)
  }

  /** `cursor.to_list(length=n)` without a sort: the first n documents in natural order. */
  function TakeNatural(S: set<Oid>, n: nat): (r: seq<Oid>)
    ensures |r| == (if |S| <= n then |S| else n) == |Window(S, Natural, 0, n)|
    ensures forall x :: x in r <==> x in Window(S, Natural, 0, n)
    ensures forall x :: x in r ==> x in S
    ensures |S| <= n ==> forall x :: x in S ==> x in r
    ensures forall i, j :: 0 <= i < j < |r| ==> SeqLess(Codes(r[i]), Codes(r[j]))
    ensures forall i, j :: 0 <= i < j < |r| ==> r[i] != r[j]
  {
    NaturalTagged();
    var r := PageOf(S, Natural, 0, n);
    AscendingDistinct(r, Natural);
    RankInRange(S, Natural);
    r
  }

  /** Every document of `S` has a position within `S`. */
  lemma RankInRange(S: set<Oid>, key: Oid -> Key)
    requires Tagged(key)
    ensures forall x :: x in S ==> Rank(S, key, x) < |S|
  {
    forall x | x in S ensures Rank(S, key, x) < |S| {
      var all := SortBy(S, key);
      var j :| 0 <= j < |all| && all[j] == x;
      RankOfSorted(S, key, all, j);
    }
  }

  /** `.skip(skip).limit(limit)` followed by `to_list(length=limit)`. A limit of
      0 gives `[]` here, where MongoDB would read it as no limit. */
  function Page<T>(s: seq<T>, skip: nat, limit: nat): (r: seq<T>)
    ensures |r| <= limit
    ensures skip <= |s| ==> |r| == if |s| - skip <= limit then |s| - skip else limit
    ensures skip >= |s| ==> r == []
    ensures forall i :: 0 <= i < |r| ==> skip + i < |s| && r[i] == s[skip + i]
  {
    if skip >= |s| then []
    else if |s| - skip <= limit then s[skip..]
    else s[skip..skip + limit]
  }

  /** Rank of a boolean field under a descending sort: true, then false, then null. */
  function BoolRank(b: Option<bool>): int {
    match b
    case Some(true) => 2
    case Some(false) => 1
    case None => 0
  }

  /** Rank and text of a string field under an ascending sort: null first. */
  function NameRank(s: Option<string>): int {
    if s.Some? then 1 else 0
  }

  function NameCodes(s: Option<string>): seq<int> {
    if s.Some? then Codes(s.value) else []
  }

  /** A name sorts no later than another under an ascending sort: null first,
      then by code points. */
  predicate NameNotAfter(a: Option<string>, b: Option<string>) {
    NameRank(a) < NameRank(b) || (NameRank(a) == NameRank(b) && !SeqLess(NameCodes(b), NameCodes(a)))
  }

  lemma {:induction false} SeqLessAsymmetric(a: seq<int>, b: seq<int>)
    requires SeqLess(a, b)
    ensures !SeqLess(b, a)
  {
    if SeqLess(b, a) {
      SeqLessTransitive(a, b, a);
      SeqLessIrreflexive(a);
    }
  }

  /** Reading a key with one rank: the rank ascends, and the name does not
      descend among equal ranks. */
  lemma KeyLessOneRank(x: Key, y: Key)
    requires KeyLess(x, y) && |x.ranks| == 1 && |y.ranks| == 1
    ensures x.ranks[0] < y.ranks[0] || (x.ranks[0] == y.ranks[0] && !SeqLess(y.name, x.name))
  {
    if x.ranks[0] == y.ranks[0] {
      assert x.ranks == [x.ranks[0]] == [y.ranks[0]] == y.ranks;
      SeqLessIrreflexive(x.ranks);
      if SeqLess(x.name, y.name) {
        SeqLessAsymmetric(x.name, y.name);
      } else {
        SeqLessIrreflexive(x.name);
      }
    }
  }

  /** Reading a key with two ranks: lexicographic on the ranks, then the name
      does not descend. */
  lemma KeyLessTwoRanks(x: Key, y: Key)
    requires KeyLess(x, y) && |x.ranks| == 2 && |y.ranks| == 2
    ensures x.ranks[0] < y.ranks[0]
         || (x.ranks[0] == y.ranks[0] && x.ranks[1] < y.ranks[1])
         || (x.ranks[0] == y.ranks[0] && x.ranks[1] == y.ranks[1] && !SeqLess(y.name, x.name))
  {
    if x.ranks[0] == y.ranks[0] && x.ranks[1] == y.ranks[1] {
      assert x.ranks == [x.ranks[0], x.ranks[1]] == [y.ranks[0], y.ranks[1]] == y.ranks;
      SeqLessIrreflexive(x.ranks);
      if SeqLess(x.name, y.name) {
        SeqLessAsymmetric(x.name, y.name);
      } else {
        SeqLessIrreflexive(x.name);
      }
    } else if x.ranks[0] == y.ranks[0] {
      assert x.ranks != y.ranks;
      assert SeqLess(x.ranks[1..], y.ranks[1..]);
      assert x.ranks[1..] == [x.ranks[1]] && y.ranks[1..] == [y.ranks[1]];
    }
  }

  /** A page of an ascending list is ascending. */
  lemma PageAscending(ids: seq<Oid>, key: Oid -> Key, skip: nat, limit: nat)
    requires Ascending(ids, key)
    ensures Ascending(Page(ids, skip, limit), key)
  {
    var p := Page(ids, skip, limit);
    forall i, j | 0 <= i < j < |p| ensures KeyLess(key(p[i]), key(p[j])) {
      assert p[i] == ids[skip + i] && p[j] == ids[skip + j];
    }
  }

  /** The documents stored under the given ids, in the same order. */
  function Lookup<T>(m: map<Oid, T>, ids: seq<Oid>): (r: seq<T>)
    requires forall i :: 0 <= i < |ids| ==> ids[i] in m
    ensures |r| == |ids|
    ensures forall i :: 0 <= i < |r| ==> r[i] == m[ids[i]]
  {
    seq(|ids|, i requires 0 <= i < |ids| => m[ids[i]])
  }

  /** Looked-up documents are stored documents. */
  lemma LookupStored<T>(m: map<Oid, T>, ids: seq<Oid>)
    requires forall i :: 0 <= i < |ids| ==> ids[i] in m
    ensures forall i :: 0 <= i < |ids| ==> Lookup(m, ids)[i] in m.Values
  {
    forall i | 0 <= i < |ids| ensures Lookup(m, ids)[i] in m.Values {
      assert ids[i] in m;
    }
  }

  /** A sequence without repetitions has as many distinct members as elements. */
  lemma {:induction false} DistinctCard(s: seq<Oid>)
    requires forall i, j :: 0 <= i < j < |s| ==> s[i] != s[j]
    ensures |set x | x in s| == |s|
  {
    if s != [] {
      var tail := s[1..];
      assert forall i, j :: 0 <= i < j < |tail| ==> tail[i] != tail[j] by {
        forall i, j | 0 <= i < j < |tail| ensures tail[i] != tail[j] {
          assert tail[i] == s[i + 1] && tail[j] == s[j + 1];
        }
      }
      DistinctCard(tail);
      assert (set x | x in s) == (set x | x in tail) + {s[0]};
      assert s[0] !in (set x | x in tail);
    }
  }

  /** The number of documents of `S` that sort before `x` in the order of `key`:
      the position `x` takes once `S` is sorted. */
  function Rank(S: set<Oid>, key: Oid -> Key, x: Oid): nat {
    |set y | y in S && KeyLess(key(y), key(x))|
  }

  /** The documents of `S` whose position in the order of `key` falls in
      `[skip, skip + limit)`: the documents of one page. */
  function Window(S: set<Oid>, key: Oid -> Key, skip: nat, limit: nat): set<Oid> {
    set x | x in S && skip <= Rank(S, key, x) < skip + limit
  }

  /** No documents, no page. */
  lemma EmptyWindow(S: set<Oid>, key: Oid -> Key, skip: nat, limit: nat)
    requires S == {}
    ensures Window(S, key, skip, limit) == {}
  {
  }

  /** How many documents a page of `n` documents holds. */
  function PageSize(n: nat, skip: nat, limit: nat): nat {
    if skip >= n then 0 else if n - skip <= limit then n - skip else limit
  }

  /** In an ascending list of the documents of `S`, the document at position `i`
      has exactly `i` documents of `S` before it. */
  lemma RankOfSorted(S: set<Oid>, key: Oid -> Key, r: seq<Oid>, i: nat)
    requires Ascending(r, key) && (forall x :: x in r <==> x in S)
    requires i < |r|
    ensures Rank(S, key, r[i]) == i
  {
    var below := set y | y in S && KeyLess(key(y), key(r[i]));
    var front := r[..i];
    forall y ensures y in below <==> y in front {
      if y in below {
        var j :| 0 <= j < |r| && r[j] == y;
        if j == i {
          KeyLessIrreflexive(key(y));
        } else if j > i {
          KeyLessTransitive(key(r[i]), key(y), key(r[i]));
          KeyLessIrreflexive(key(r[i]));
        }
        assert front[j] == y;
      }
      if y in front {
        var j :| 0 <= j < i && front[j] == y;
        assert r[j] == y;
      }
    }
    assert below == set x | x in front;
    AscendingDistinct(r, key);
    DistinctCard(front);
  }

  /** An ascending list holds no document twice. */
  lemma AscendingDistinct(r: seq<Oid>, key: Oid -> Key)
    requires Ascending(r, key)
    ensures forall i, j :: 0 <= i < j < |r| ==> r[i] != r[j]
  {
    forall i, j | 0 <= i < j < |r| ensures r[i] != r[j] {
      if r[i] == r[j] {
        KeyLessIrreflexive(key(r[i]));
      }
    }
  }

  /** The tail of an ascending list holds every member but the first. */
  lemma AscendingTail(r: seq<Oid>, key: Oid -> Key)
    requires Ascending(r, key) && r != []
    ensures forall x :: x in r[1..] <==> x in r && x != r[0]
  {
    AscendingDistinct(r, key);
    forall x | x in r && x != r[0] ensures x in r[1..] {
      var a :| 0 <= a < |r| && r[a] == x;
      assert r[1..][a - 1] == x;
    }
  }

  /** Two ascending lists of the same documents are the same list: a page is
      determined by which documents it holds. */
  lemma {:induction false} AscendingUnique(r: seq<Oid>, s: seq<Oid>, key: Oid -> Key)
    requires Ascending(r, key) && Ascending(s, key)
    requires forall x :: x in r <==> x in s
    ensures r == s
    decreases |r|
  {
    assert r == [] <==> s == [] by {
      if r != [] {
        assert r[0] in s;
      }
      if s != [] {
        assert s[0] in r;
      }
    }
    if r != [] {
      assert r[0] in s && s[0] in r;
      if r[0] != s[0] {
        var j :| 0 <= j < |s| && s[j] == r[0];
        var k :| 0 <= k < |r| && r[k] == s[0];
        assert j > 0 && k > 0;
        KeyLessTransitive(key(r[0]), key(r[k]), key(r[0]));
        KeyLessIrreflexive(key(r[0]));
      }
      AscendingTail(r, key);
      AscendingTail(s, key);
      AscendingUnique(r[1..], s[1..], key);
      assert r == [r[0]] + r[1..] && s == [s[0]] + s[1..];
    }
  }

  /** The window `[skip, skip + limit)` of a sorted list of `S` holds the
      documents of `S` whose position falls in that window. */
  lemma PageIsWindow(S: set<Oid>, key: Oid -> Key, all: seq<Oid>, skip: nat, limit: nat)
    requires Ascending(all, key) && (forall x :: x in all <==> x in S) && |all| == |S|
    ensures forall x :: x in Page(all, skip, limit) <==> x in Window(S, key, skip, limit)
    ensures |Page(all, skip, limit)| == PageSize(|S|, skip, limit) == |Window(S, key, skip, limit)|
  {
    var ids := Page(all, skip, limit);
    forall x ensures x in ids <==> x in Window(S, key, skip, limit) {
      if x in ids {
        var i :| 0 <= i < |ids| && ids[i] == x;
        RankOfSorted(S, key, all, skip + i);
      }
      if x in Window(S, key, skip, limit) {
        var j :| 0 <= j < |all| && all[j] == x;
        RankOfSorted(S, key, all, j);
        assert ids[j - skip] == x;
      }
    }
    PageAscending(all, key, skip, limit);
    AscendingDistinct(ids, key);
    DistinctCard(ids);
    assert (set x | x in ids) == Window(S, key, skip, limit);
  }

  /** `.sort(key).skip(skip).limit(limit)` over the matching documents `S`: the
      ids of the documents whose position in the order of `key` is in
      `[skip, skip + limit)`, in that order. */
  function PageOf(S: set<Oid>, key: Oid -> Key, skip: nat, limit: nat): (ids: seq<Oid>)
    requires Tagged(key)
    ensures forall x :: x in ids <==> x in Window(S, key, skip, limit)
    ensures Ascending(ids, key)
    ensures |ids| == PageSize(|S|, skip, limit) == |Window(S, key, skip, limit)|
  {
    var all := SortBy(S, key);
    PageAscending(all, key, skip, limit);
    PageIsWindow(S, key, all, skip, limit);
    Page(all, skip, limit)
  }

  /** The documents of `m` stored under the ids `K`. */
  function DocsOf<T>(m: map<Oid, T>, K: set<Oid>): set<T> {
    set k | k in K && k in m :: m[k]
  }

  /** `r` lists the documents of `m` under the ids of `W`: one entry per id, every
      one of them, and nothing else. */
  ghost predicate ListsWindow<T>(r: seq<T>, m: map<Oid, T>, W: set<Oid>) {
    && |r| == |W|
    && (forall k :: k in W && k in m ==> m[k] in r)
    && (forall i :: 0 <= i < |r| ==> r[i] in DocsOf(m, W))
  }

  /** Looking up a page's ids lists the documents of its window. */
  lemma LookupListsWindow<T>(m: map<Oid, T>, ids: seq<Oid>, W: set<Oid>)
    requires forall i :: 0 <= i < |ids| ==> ids[i] in m
    requires (forall x :: x in ids <==> x in W) && |ids| == |W|
    ensures ListsWindow(Lookup(m, ids), m, W)
  {
    var r := Lookup(m, ids);
    forall k | k in W && k in m ensures m[k] in r {
      var i :| 0 <= i < |ids| && ids[i] == k;
      assert r[i] == m[k];
    }
    forall i | 0 <= i < |r| ensures r[i] in DocsOf(m, W) {
      assert ids[i] in W && ids[i] in m;
    }
  }
}
