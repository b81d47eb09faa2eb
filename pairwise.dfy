/**
  Pairwise tabulation of src/pairwise.rs: for every pair of candidates, how many
  ballots rank each one first, and the table from victory margin to the set of
  directed `(winner, loser)` pairs with that margin.
 */
module Pairwise {
  import opened Wrappers
  import opened Paths

  /** A ballot lists candidate indices, most preferred first. */
  type Ballot = seq<nat>

  /** The first entry of `ballot` that is `c1` or `c2`. */
  function FirstOf(ballot: Ballot, c1: nat, c2: nat): (r: Option<nat>)
    ensures r.None? <==> c1 !in ballot && c2 !in ballot
    ensures r.Some? ==> r.value == c1 || r.value == c2
    ensures r.Some? ==> exists i :: 0 <= i < |ballot| && ballot[i] == r.value && c1 !in ballot[..i] && c2 !in ballot[..i]
  {
    if ballot == [] then None
    else if ballot[0] == c1 || ballot[0] == c2 then
      assert ballot[..0] == [];
      Some(ballot[0])
    else
      var r := FirstOf(ballot[1..], c1, c2);
      assert ballot == [ballot[0]] + ballot[1..];
      assert r.Some? ==> exists i :: 0 <= i < |ballot| && ballot[i] == r.value && c1 !in ballot[..i] && c2 !in ballot[..i] by {
        if r.Some? {
          var i :| 0 <= i < |ballot[1..]| && ballot[1..][i] == r.value && c1 !in ballot[1..][..i] && c2 !in ballot[1..][..i];
          assert ballot[..i + 1] == [ballot[0]] + ballot[1..][..i];
        }
      }
      r
  }

  /** One ballot's contribution to `(c1 wins, c2 wins)`: a point to whichever of the two it names first. */
  function Vote(ballot: Ballot, c1: nat, c2: nat): (nat, nat) {
    match FirstOf(ballot, c1, c2)
    case None => (0, 0)
    case Some(v) => if v == c1 then (1, 0) else (0, 1)
  }

  /** `(c1 wins, c2 wins)` over all ballots. */
  function Count(ballots: seq<Ballot>, c1: nat, c2: nat): (nat, nat) {
    if ballots == [] then (0, 0)
    else
      var v := Vote(ballots[0], c1, c2);
      var rest := Count(ballots[1..], c1, c2);
      (v.0 + rest.0, v.1 + rest.1)
  }

  /** The number of ballots that name `c1` or `c2`. */
  function Mentioning(ballots: seq<Ballot>, c1: nat, c2: nat): (k: nat)
    ensures k <= |ballots|
  {
    if ballots == [] then 0
    else (if c1 in ballots[0] || c2 in ballots[0] then 1 else 0) + Mentioning(ballots[1..], c1, c2)
  }

  /** Every ballot that names one of the pair gives exactly one point, so the counts are bounded by the ballots. */
  lemma {:induction false} CountMentioning(ballots: seq<Ballot>, c1: nat, c2: nat)
    ensures Count(ballots, c1, c2).0 + Count(ballots, c1, c2).1 == Mentioning(ballots, c1, c2)
    ensures Count(ballots, c1, c2).0 + Count(ballots, c1, c2).1 <= |ballots|
  {
    if ballots != [] {
      CountMentioning(ballots[1..], c1, c2);
    }
  }

  lemma {:induction false} FirstOfSwap(ballot: Ballot, c1: nat, c2: nat)
    ensures FirstOf(ballot, c2, c1) == FirstOf(ballot, c1, c2)
  {
    if ballot != [] {
      FirstOfSwap(ballot[1..], c1, c2);
    }
  }

  /** Counting the pair the other way round swaps the two counts. */
  lemma {:induction false} CountSwap(ballots: seq<Ballot>, c1: nat, c2: nat)
    requires c1 != c2
    ensures Count(ballots, c2, c1) == (Count(ballots, c1, c2).1, Count(ballots, c1, c2).0)
  {
    if ballots != [] {
      FirstOfSwap(ballots[0], c1, c2);
      CountSwap(ballots[1..], c1, c2);
    }
  }

  /** Loops over the ballots, giving each ballot's point to the one of `c1`, `c2` it ranks first. */
  method CountPairwiseElection(ballots: seq<Ballot>, c1: nat, c2: nat) returns (c1Wins: nat, c2Wins: nat)
    ensures (c1Wins, c2Wins) == Count(ballots, c1, c2)
  {
    c1Wins, c2Wins := 0, 0;
    var i := 0;
    while i < |ballots|
      invariant 0 <= i <= |ballots|
      invariant c1Wins + Count(ballots[i..], c1, c2).0 == Count(ballots, c1, c2).0
      invariant c2Wins + Count(ballots[i..], c1, c2).1 == Count(ballots, c1, c2).1
    {
      assert ballots[i..][1..] == ballots[i + 1..];
      match FirstOf(ballots[i], c1, c2) {
        case Some(v) =>
          if v == c1 {
            c1Wins := c1Wins + 1;
          } else {
            c2Wins := c2Wins + 1;
          }
        case None =>
      }
      i := i + 1;
    }
    assert ballots[i..] == [];
  }

  /** The ballots of the unit tests in src/pairwise.rs. */
  const TestBallots: seq<Ballot> := [[0, 1, 2], [1, 0, 2], [1, 2, 0], [1], [4]]

  /** The tails of `TestBallots`, so that `Count` unfolds over them. */
  lemma TestBallotsTails()
    ensures TestBallots[1..] == [[1, 0, 2], [1, 2, 0], [1], [4]]
    ensures TestBallots[1..][1..] == [[1, 2, 0], [1], [4]]
    ensures TestBallots[1..][1..][1..] == [[1], [4]]
    ensures TestBallots[1..][1..][1..][1..] == [[4]]
    ensures TestBallots[1..][1..][1..][1..][1..] == []
    ensures [0, 1, 2][1..] == [1, 2] && [1, 0, 2][1..] == [0, 2] && [1, 2, 0][1..] == [2, 0]
    ensures [1, 2][1..] == [2] && [0, 2][1..] == [2] && [2, 0][1..] == [0] && [2][1..] == [] && [0][1..] == []
    ensures [1][1..] == [] && [4][1..] == []
  {
  }

  /** Two candidates both named on most test ballots, in either order of the pair. */
  lemma CountExampleBoth()
    ensures Count(TestBallots, 0, 1) == (1, 3)
    ensures Count(TestBallots, 1, 0) == (3, 1)
  {
    TestBallotsTails();
    assert Count(TestBallots, 0, 1) == (1, 3);
    CountSwap(TestBallots, 0, 1);
  }

  /** A ballot naming only one of the pair counts for that one. */
  lemma CountExampleOne()
    ensures Count(TestBallots, 4, 5) == (1, 0)
  {
    TestBallotsTails();
  }

  /** Ballots naming neither candidate count for nobody. */
  lemma CountExampleNeither()
    ensures Count(TestBallots, 8, 9) == (0, 0)
  {
    TestBallotsTails();
  }

  /** Candidate 1 comes before candidate 2 on every ballot that names either. */
  lemma CountExampleUnanimous()
    ensures Count(TestBallots, 1, 2) == (4, 0)
  {
    TestBallotsTails();
  }

  /** A candidate named only on the last test ballot against one named on the first three. */
  lemma CountExampleLast()
    ensures Count(TestBallots, 0, 4) == (3, 1)
  {
    TestBallotsTails();
  }

  /** The same kind of pair with the later-named candidate listed first. */
  lemma CountExampleLastSwapped()
    ensures Count(TestBallots, 4, 1) == (1, 4)
  {
    TestBallotsTails();
  }

  /** The pair `(2, 0)`, whose order differs from ballot to ballot. */
  lemma CountExampleSplit()
    ensures Count(TestBallots, 2, 0) == (1, 2)
  {
    TestBallotsTails();
  }

  /** How far `w` is ahead of `l`: ballots preferring `w` minus ballots preferring `l`. */
  ghost function Margin(ballots: seq<Ballot>, w: nat, l: nat): int {
    Count(ballots, w, l).0 - Count(ballots, w, l).1
  }

  /** The margin of every ordered pair, as one function value. */
  ghost function Margins(ballots: seq<Ballot>): Edge -> int {
    (e: Edge) => Margin(ballots, e.0, e.1)
  }

  lemma MarginSwap(ballots: seq<Ballot>, w: nat, l: nat)
    requires w != l
    ensures Margin(ballots, l, w) == -Margin(ballots, w, l)
  {
    CountSwap(ballots, w, l);
  }

  // ---------------------------------------------------------------------
  // The table, stated over any margin function `M`
  // ---------------------------------------------------------------------

  /** `e` is a pair the table stores: two distinct candidates, the first strictly ahead. */
  ghost predicate Stored(M: Edge -> int, n: nat, e: Edge) {
    e.0 < n && e.1 < n && e.0 != e.1 && M(e) > 0
  }

  /** `M` is a margin function: reversing a pair negates its margin. */
  ghost predicate Antisymmetric(M: Edge -> int) {
    forall w: nat, l: nat :: w != l ==> M((l, w)) == -M((w, l))
  }

  lemma MarginsAntisymmetric(ballots: seq<Ballot>)
    ensures Antisymmetric(Margins(ballots))
  {
    forall w: nat, l: nat | w != l ensures Margins(ballots)((l, w)) == -Margins(ballots)((w, l)) {
      MarginSwap(ballots, w, l);
    }
  }

  /**
    `t` is the pairwise table: every group is nonempty, and a directed pair is in the
    group under `m` exactly when it is stored and its margin is `m`.
   */
  ghost predicate IsTable(M: Edge -> int, n: nat, t: map<nat, set<Edge>>) {
    && (forall m :: m in t ==> t[m] != {})
    && (forall m, e :: m in t && e in t[m] ==> Stored(M, n, e) && M(e) == m)
    && (forall e :: Stored(M, n, e) ==> M(e) as nat in t && e in t[M(e) as nat])
  }

  /** The unordered pair of `e` comes before `(c1, c2)` in the order the pair loop visits pairs. */
  predicate PairBefore(e: Edge, c1: nat, c2: nat) {
    var lo := if e.0 < e.1 then e.0 else e.1;
    var hi := if e.0 < e.1 then e.1 else e.0;
    lo < c1 || (lo == c1 && hi < c2)
  }

  /** `t` is the table restricted to the pairs before `(c1, c2)`. */
  ghost predicate TableBefore(M: Edge -> int, n: nat, t: map<nat, set<Edge>>, c1: nat, c2: nat) {
    && (forall m :: m in t ==> t[m] != {})
    && (forall m, e :: m in t && e in t[m] ==> Stored(M, n, e) && M(e) == m && PairBefore(e, c1, c2))
    && (forall e :: Stored(M, n, e) && PairBefore(e, c1, c2) ==> M(e) as nat in t && e in t[M(e) as nat])
  }

  lemma InTableStored(M: Edge -> int, n: nat, t: map<nat, set<Edge>>, m: nat, e: Edge)
    requires IsTable(M, n, t) && m in t && e in t[m]
    ensures e.0 < n && e.1 < n && e.0 != e.1 && M(e) == m > 0
  {
    assert Stored(M, n, e);
  }

  /**
    The shape of the table: no key is 0, every stored pair joins two distinct
    candidates below `n`, each pair sits in exactly one group, and never both
    directions of the same pair are stored.
   */
  lemma TableShape(M: Edge -> int, n: nat, t: map<nat, set<Edge>>)
    requires Antisymmetric(M) && IsTable(M, n, t)
    ensures 0 !in t
    ensures forall m, e :: m in t && e in t[m] ==> e.0 != e.1 && e.0 < n && e.1 < n
    ensures forall m, m', e :: m in t && m' in t && e in t[m] && e in t[m'] ==> m == m'
    ensures forall m, m', e :: m in t && m' in t && e in t[m] ==> (e.1, e.0) !in t[m']
  {
    if 0 in t {
      assert t[0] != {};
      var e :| e in t[0];
      InTableStored(M, n, t, 0, e);
      assert false;
    }
    forall m, m', e | m in t && m' in t && e in t[m] && e in t[m'] ensures m == m' {
      assert M(e) == m && M(e) == m';
    }
    forall m, m', e | m in t && m' in t && e in t[m] ensures (e.1, e.0) !in t[m'] {
      assert M((e.1, e.0)) == -M(e);
    }
  }

  /** With fewer than two candidates there is no pair, so the table is empty. */
  lemma SmallTableEmpty(M: Edge -> int, n: nat, t: map<nat, set<Edge>>)
    requires n <= 1 && IsTable(M, n, t)
    ensures t == map[]
  {
    if t != map[] {
      var m :| m in t;
      assert t[m] != {};
      var e :| e in t[m];
      InTableStored(M, n, t, m, e);
      assert false;
    }
  }

  lemma IsTableIncluded(M: Edge -> int, n: nat, t: map<nat, set<Edge>>, r: map<nat, set<Edge>>)
    requires IsTable(M, n, t) && IsTable(M, n, r)
    ensures t.Keys <= r.Keys && forall m :: m in t ==> t[m] <= r[m]
  {
    forall m | m in t ensures m in r && t[m] <= r[m] {
      assert t[m] != {};
      var e :| e in t[m];
      InTableStored(M, n, t, m, e);
      assert Stored(M, n, e);
      forall f | f in t[m] ensures f in r[m] {
        InTableStored(M, n, t, m, f);
        assert Stored(M, n, f);
      }
    }
  }

  /** The table is determined by the margins: two tables of the same margins are equal. */
  lemma IsTableUnique(M: Edge -> int, n: nat, t: map<nat, set<Edge>>, r: map<nat, set<Edge>>)
    requires IsTable(M, n, t) && IsTable(M, n, r)
    ensures t == r
  {
    IsTableIncluded(M, n, t, r);
    IsTableIncluded(M, n, r, t);
    forall m | m in t ensures t[m] == r[m] {
      assert t[m] <= r[m] && r[m] <= t[m];
    }
    assert t.Keys == r.Keys;
  }

  /**
    For a pair `c1 < c2 < n`: it is in the table exactly when the two counts differ,
    and then as `(winner, loser)` under the difference of the counts.
   */
  lemma PairInTable(ballots: seq<Ballot>, n: nat, t: map<nat, set<Edge>>, c1: nat, c2: nat)
    requires IsTable(Margins(ballots), n, t) && c1 < c2 < n
    ensures (exists m :: m in t && ((c1, c2) in t[m] || (c2, c1) in t[m])) <==> Count(ballots, c1, c2).0 != Count(ballots, c1, c2).1
    ensures Count(ballots, c1, c2).0 > Count(ballots, c1, c2).1 ==>
      var m := Count(ballots, c1, c2).0 - Count(ballots, c1, c2).1; m in t && (c1, c2) in t[m]
    ensures Count(ballots, c1, c2).0 < Count(ballots, c1, c2).1 ==>
      var m := Count(ballots, c1, c2).1 - Count(ballots, c1, c2).0; m in t && (c2, c1) in t[m]
  {
    var M := Margins(ballots);
    MarginSwap(ballots, c1, c2);
    assert M((c1, c2)) == Count(ballots, c1, c2).0 - Count(ballots, c1, c2).1;
    assert M((c2, c1)) == Count(ballots, c1, c2).1 - Count(ballots, c1, c2).0;
    if Count(ballots, c1, c2).0 > Count(ballots, c1, c2).1 {
      assert Stored(M, n, (c1, c2));
    } else if Count(ballots, c1, c2).0 < Count(ballots, c1, c2).1 {
      assert Stored(M, n, (c2, c1));
    }
  }

  /**
    A margin function with the ballots' margins as values, which reveals the value at
    `(w, l)` only where `Margin(ballots, w, l)` is mentioned: the pair loop reasons
    with it so that the counts behind the other pairs stay out of sight.
   */
  lemma MarginValues(ballots: seq<Ballot>) returns (M: Edge -> int)
    ensures forall w: nat, l: nat {:trigger Margin(ballots, w, l)} :: M((w, l)) == Margin(ballots, w, l)
    ensures Antisymmetric(M)
  {
    M := Margins(ballots);
    MarginsAntisymmetric(ballots);
  }

  /** The table depends on the margins only through their values. */
  lemma IsTableCongruent(M: Edge -> int, M': Edge -> int, n: nat, t: map<nat, set<Edge>>)
    requires forall e :: M(e) == M'(e)
    requires IsTable(M, n, t)
    ensures IsTable(M', n, t)
  {
    forall m, e | m in t && e in t[m] ensures Stored(M', n, e) && M'(e) == m {
      InTableStored(M, n, t, m, e);
    }
    forall e | Stored(M', n, e) ensures M'(e) as nat in t && e in t[M'(e) as nat] {
      assert Stored(M, n, e);
    }
  }

  // ---------------------------------------------------------------------
  // The nested pair loop
  // ---------------------------------------------------------------------

  /** `entry(m).or_default().insert(e)`. */
  function Insert(t: map<nat, set<Edge>>, m: nat, e: Edge): (r: map<nat, set<Edge>>)
    ensures r.Keys == t.Keys + {m}
    ensures r[m] == (if m in t then t[m] else {}) + {e}
    ensures forall k :: k in t && k != m ==> r[k] == t[k]
  {
    t[m := (if m in t then t[m] else {}) + {e}]
  }

  /** Filing the stored pair `e` of position `(c1, c2)` extends the table to the next position. */
  lemma InsertKeeps(M: Edge -> int, n: nat, t: map<nat, set<Edge>>, c1: nat, c2: nat, e: Edge)
    requires c1 < c2 < n && TableBefore(M, n, t, c1, c2)
    requires e == (c1, c2) || e == (c2, c1)
    requires M(e) > 0 && M((e.1, e.0)) <= 0
    ensures e !in (if M(e) as nat in t then t[M(e) as nat] else {})
    ensures TableBefore(M, n, Insert(t, M(e) as nat, e), c1, c2 + 1)
  {
    var m := M(e) as nat;
    var r := Insert(t, m, e);
    assert Stored(M, n, e) && !Stored(M, n, (e.1, e.0));
    assert !PairBefore(e, c1, c2) && PairBefore(e, c1, c2 + 1);
    forall k | k in r ensures r[k] != {} {
      if k == m {
        assert e in r[k];
      } else {
        assert r[k] == t[k];
      }
    }
    forall k, f | k in r && f in r[k] ensures Stored(M, n, f) && M(f) == k && PairBefore(f, c1, c2 + 1) {
      if k in t && f in t[k] {
        assert PairBefore(f, c1, c2);
      } else {
        assert k == m && f == e;
      }
    }
    forall f | Stored(M, n, f) && PairBefore(f, c1, c2 + 1)
      ensures M(f) as nat in r && f in r[M(f) as nat]
    {
      if PairBefore(f, c1, c2) {
        assert M(f) as nat in t && f in t[M(f) as nat];
      } else {
        assert f == e;
      }
    }
    assert TableBefore(M, n, r, c1, c2 + 1);
  }

  /** Skipping a tied pair `(c1, c2)` extends the table to the next position. */
  lemma SkipKeeps(M: Edge -> int, n: nat, t: map<nat, set<Edge>>, c1: nat, c2: nat)
    requires c1 < c2 < n && TableBefore(M, n, t, c1, c2)
    requires M((c1, c2)) <= 0 && M((c2, c1)) <= 0
    ensures TableBefore(M, n, t, c1, c2 + 1)
  {
    forall m, f | m in t && f in t[m] ensures PairBefore(f, c1, c2 + 1) {
      assert PairBefore(f, c1, c2);
    }
    forall f | Stored(M, n, f) && PairBefore(f, c1, c2 + 1)
      ensures PairBefore(f, c1, c2)
    {
    }
  }

  /** Finishing the row of `c1` (all `c2 < n` visited) is starting the row of `c1 + 1`. */
  lemma NextRow(M: Edge -> int, n: nat, t: map<nat, set<Edge>>, c1: nat)
    requires TableBefore(M, n, t, c1, n)
    ensures TableBefore(M, n, t, c1 + 1, c1 + 2)
  {
    forall m, f | m in t && f in t[m] ensures PairBefore(f, c1 + 1, c1 + 2) {
      assert PairBefore(f, c1, n);
    }
    forall f | Stored(M, n, f) && PairBefore(f, c1 + 1, c1 + 2)
      ensures PairBefore(f, c1, n)
    {
    }
  }

  /** Before the first pair the table is empty. */
  lemma FirstRow(M: Edge -> int, n: nat)
    ensures TableBefore(M, n, map[], 0, 1)
  {
    forall f | Stored(M, n, f) ensures !PairBefore(f, 0, 1) { }
  }

  /** Once no row is left (`n <= c1 + 1`) the table holds every stored pair. */
  lemma LastRow(M: Edge -> int, n: nat, t: map<nat, set<Edge>>, c1: nat)
    requires n <= c1 + 1 && TableBefore(M, n, t, c1, c1 + 1)
    ensures IsTable(M, n, t)
  {
    forall f | Stored(M, n, f) ensures PairBefore(f, c1, c1 + 1) { }
  }

  /** `M` holds the ballots' margins for the two directions of `(c1, c2)`. */
  ghost predicate MarginsAt(ballots: seq<Ballot>, M: Edge -> int, c1: nat, c2: nat) {
    M((c1, c2)) == Margin(ballots, c1, c2) && M((c2, c1)) == Margin(ballots, c2, c1)
  }

  /**
    The body of the inner loop: count the pair `(c1, c2)` and file its winner under
    the margin, or nothing on a tie; this extends the table to the next position.
   */
  method FilePair(ballots: seq<Ballot>, ghost M: Edge -> int, candidates: nat, table: map<nat, set<Edge>>, c1: nat, c2: nat)
    returns (r: map<nat, set<Edge>>)
    requires MarginsAt(ballots, M, c1, c2)
    requires c1 < c2 < candidates && TableBefore(M, candidates, table, c1, c2)
    ensures TableBefore(M, candidates, r, c1, c2 + 1)
  {
    var c1Wins, c2Wins := CountPairwiseElection(ballots, c1, c2);
    MarginSwap(ballots, c1, c2);
    if c1Wins < c2Wins {
      InsertKeeps(M, candidates, table, c1, c2, (c2, c1));
      r := Insert(table, c2Wins - c1Wins, (c2, c1));
    } else if c1Wins > c2Wins {
      InsertKeeps(M, candidates, table, c1, c2, (c1, c2));
      r := Insert(table, c1Wins - c2Wins, (c1, c2));
    } else {
      SkipKeeps(M, candidates, table, c1, c2);
      r := table;
    }
  }

  /** The inner loop: one row `c1` of the pair loop, for every `c2` from `c1 + 1` up. */
  method TabulateRow(ballots: seq<Ballot>, ghost M: Edge -> int, candidates: nat, table: map<nat, set<Edge>>, c1: nat)
    returns (r: map<nat, set<Edge>>)
    requires forall w: nat, l: nat {:trigger Margin(ballots, w, l)} :: M((w, l)) == Margin(ballots, w, l)
    requires c1 < candidates && TableBefore(M, candidates, table, c1, c1 + 1)
    ensures TableBefore(M, candidates, r, c1, candidates)
  {
    r := table;
    var c2 := c1 + 1;
    while c2 < candidates
      invariant c1 < c2 <= candidates
      invariant TableBefore(M, candidates, r, c1, c2)
    {
      assert MarginsAt(ballots, M, c1, c2) by {
        assert M((c1, c2)) == Margin(ballots, c1, c2);
        assert M((c2, c1)) == Margin(ballots, c2, c1);
      }
      r := FilePair(ballots, M, candidates, r, c1, c2);
      c2 := c2 + 1;
    }
  }

  /** A candidate number or count as the source stores it: an unsigned 16-bit integer. */
  type U16 = x: nat | x < 0x1_0000

  /**
    `a - b` on `u16` with the overflow check of a debug build: the subtraction wraps
    around modulo 2^16, and a wrapped result is a panic (`None`).
   */
  function CheckedSub16(a: U16, b: U16): (r: Option<U16>)
    ensures r.None? <==> a < b
    ensures r.Some? ==> r.value + b == a
  {
    var d := (a - b) % 0x1_0000;
    if d > a then None else Some(d)
  }

  /** The exclusive bound of the pair loop's rows as src/pairwise.rs:10 computes it: `candidates - 1`. */
  function RowsAsWritten(candidates: U16): Option<U16> {
    CheckedSub16(candidates, 1)
  }

  /**
    The row bound panics exactly for an election without candidates; otherwise the
    rows are those of every candidate but the last.
   */
  lemma RowsAsWrittenUnderflow(candidates: U16)
    ensures RowsAsWritten(candidates).None? <==> candidates == 0
    ensures RowsAsWritten(candidates).Some? ==> RowsAsWritten(candidates).value + 1 == candidates
  {
  }

  /**
    Visits every pair `c1 < c2 < candidates` once and files the winner of each
    non-tied pair under its margin; with no or one candidate the loops do not run.
    The source's `assert!` on each insert holds (`InsertKeeps`).
   */
  method TabulatePairwiseResults(ballots: seq<Ballot>, candidates: nat) returns (table: map<nat, set<Edge>>)
    ensures IsTable(Margins(ballots), candidates, table)
  {
    ghost var M := MarginValues(ballots);
    table := map[];
    FirstRow(M, candidates);
    var c1 := 0;
    while c1 + 1 < candidates
      invariant TableBefore(M, candidates, table, c1, c1 + 1)
    {
      table := TabulateRow(ballots, M, candidates, table, c1);
      NextRow(M, candidates, table, c1);
      c1 := c1 + 1;
    }
    LastRow(M, candidates, table, c1);
    forall e ensures M(e) == Margins(ballots)(e) {
      assert M((e.0, e.1)) == Margin(ballots, e.0, e.1);
    }
    IsTableCongruent(M, Margins(ballots), candidates, table);
  }
}
