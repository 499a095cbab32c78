/**
 * One Redis sorted set (ZSET): a collection of distinct string members,
 * each with a score. Redis keeps the members ordered by score and breaks
 * ties by comparing the members themselves; the value here is that ordered
 * sequence, and `Scores` is its abstract view as a map from member to score.
 */
module SortedSet {

  import opened CodePointOrder

  datatype Entry = Entry(member: string, score: int)

  /** The order Redis keeps: by score, then by member. */
  predicate Precedes(x: Entry, y: Entry)
  {
    x.score < y.score || (x.score == y.score && Below(x.member, y.member))
  }

  predicate Ordered(z: seq<Entry>)
  {
    forall i, j :: 0 <= i < j < |z| ==> Precedes(z[i], z[j])
  }

  predicate DistinctMembers(z: seq<Entry>)
  {
    forall i, j :: 0 <= i < j < |z| ==> z[i].member != z[j].member
  }

  /** A sorted set: members unique, entries in Redis order. */
  predicate WellFormed(z: seq<Entry>)
  {
    Ordered(z) && DistinctMembers(z)
  }

  lemma PrecedesIrreflexive(x: Entry)
    ensures !Precedes(x, x)
  {
    BelowIrreflexive(x.member);
  }

  lemma PrecedesTransitive(x: Entry, y: Entry, z: Entry)
    requires Precedes(x, y) && Precedes(y, z)
    ensures Precedes(x, z)
  {
    if x.score == y.score == z.score {
      BelowTransitive(x.member, y.member, z.member);
    }
  }

  lemma PrecedesTotal(x: Entry, y: Entry)
    requires x.member != y.member
    ensures Precedes(x, y) || Precedes(y, x)
  {
    BelowTotal(x.member, y.member);
  }

  function Members(z: seq<Entry>): set<string>
  {
    set x | x in z :: x.member
  }

  /** The abstract view: each member with its score. */
  function Scores(z: seq<Entry>): (m: map<string, int>)
    ensures m.Keys == Members(z)
  {
    if z == [] then map[]
    else
      var m := Scores(z[1..])[z[0].member := z[0].score];
      assert Members(z) == Members(z[1..]) + {z[0].member} by {
        assert forall x :: x in z <==> x == z[0] || x in z[1..];
      }
      m
  }

  /** Each entry of a sorted set is exactly one point of its score map. */
  lemma {:induction false} EntriesAreScores(z: seq<Entry>)
    requires DistinctMembers(z)
    ensures forall x :: x in z <==> x.member in Scores(z) && Scores(z)[x.member] == x.score
  {
    if z != [] {
      var rest := z[1..];
      assert DistinctMembers(rest) by {
        forall i, j | 0 <= i < j < |rest| ensures rest[i].member != rest[j].member {
          assert rest[i] == z[i + 1] && rest[j] == z[j + 1];
        }
      }
      EntriesAreScores(rest);
      forall x ensures x in z <==> x.member in Scores(z) && Scores(z)[x.member] == x.score {
        assert x in z <==> x == z[0] || x in rest;
      }
    }
  }

  /** The map view determines a sorted set's entries. */
  lemma ScoresDetermineEntries(z: seq<Entry>, w: map<string, int>)
    requires DistinctMembers(z)
    requires forall x :: x in z <==> x.member in w && w[x.member] == x.score
    ensures Scores(z) == w
  {
    EntriesAreScores(z);
    forall k | k in w ensures k in Scores(z) {
      assert Entry(k, w[k]) in z;
    }
    forall k | k in Scores(z) ensures k in w && w[k] == Scores(z)[k] {
      assert Entry(k, Scores(z)[k]) in z;
    }
  }

  /** The entries of `z` that satisfy `keep`, in their order. */
  function Keep(z: seq<Entry>, keep: Entry -> bool): (r: seq<Entry>)
    ensures forall x :: x in r <==> x in z && keep(x)
    ensures |r| <= |z|
  {
    if z == [] then []
    else
      var rest := Keep(z[1..], keep);
      assert forall x :: x in z <==> x == z[0] || x in z[1..];
      if keep(z[0]) then [z[0]] + rest else rest
  }

  /** The tail of a sorted set is a sorted set whose entries all follow the head. */
  lemma TailWellFormed(z: seq<Entry>)
    requires WellFormed(z) && z != []
    ensures WellFormed(z[1..])
    ensures forall y :: y in z[1..] ==> Precedes(z[0], y) && z[0].member != y.member
  {
    var rest := z[1..];
    forall i, j | 0 <= i < j < |rest|
      ensures Precedes(rest[i], rest[j]) && rest[i].member != rest[j].member
    {
      assert rest[i] == z[i + 1] && rest[j] == z[j + 1];
    }
    forall y | y in rest ensures Precedes(z[0], y) && z[0].member != y.member {
      var k :| 0 <= k < |rest| && rest[k] == y;
      assert z[k + 1] == y;
    }
  }

  /** An entry that precedes every entry of a sorted set, with a new member, may head it. */
  lemma ConsWellFormed(x: Entry, r: seq<Entry>)
    requires WellFormed(r)
    requires forall y :: y in r ==> Precedes(x, y) && x.member != y.member
    ensures WellFormed([x] + r)
  {
    var c := [x] + r;
    forall i, j | 0 <= i < j < |c| ensures Precedes(c[i], c[j]) && c[i].member != c[j].member {
      assert c[j] == r[j - 1];
      if i > 0 {
        assert c[i] == r[i - 1];
      } else {
        assert c[j] in r;
      }
    }
  }

  lemma {:induction false} KeepWellFormed(z: seq<Entry>, keep: Entry -> bool)
    requires WellFormed(z)
    ensures WellFormed(Keep(z, keep))
  {
    if z != [] {
      TailWellFormed(z);
      KeepWellFormed(z[1..], keep);
      if keep(z[0]) {
        ConsWellFormed(z[0], Keep(z[1..], keep));
      }
    }
  }

  /** Place `e` at its position in Redis order. */
  function Insert(z: seq<Entry>, e: Entry): (r: seq<Entry>)
    ensures forall x :: x in r <==> x in z || x == e
    ensures |r| == |z| + 1
  {
    if z == [] || Precedes(e, z[0]) then [e] + z
    else
      var rest := Insert(z[1..], e);
      assert forall x :: x in z <==> x == z[0] || x in z[1..];
      [z[0]] + rest
  }

  lemma {:induction false} InsertWellFormed(z: seq<Entry>, e: Entry)
    requires WellFormed(z)
    requires e.member !in Members(z)
    ensures WellFormed(Insert(z, e))
  {
    if z == [] {
    } else if Precedes(e, z[0]) {
      TailWellFormed(z);
      forall y | y in z ensures Precedes(e, y) && e.member != y.member {
        if y != z[0] {
          assert y in z[1..];
          PrecedesTransitive(e, z[0], y);
        }
      }
      ConsWellFormed(e, z);
    } else {
      var rest := z[1..];
      TailWellFormed(z);
      assert Members(rest) <= Members(z) by {
        forall x | x in rest ensures x in z { }
      }
      InsertWellFormed(rest, e);
      assert z[0] in z;
      PrecedesTotal(e, z[0]);
      ConsWellFormed(z[0], Insert(rest, e));
    }
  }

  /** Selects the entries of members other than `member`. */
  function OtherThan(member: string): Entry -> bool
  {
    (x: Entry) => x.member != member
  }

  /** ZADD of one member: drop its old entry, if any, and insert the new one. */
  function ZAdd(z: seq<Entry>, member: string, score: int): (r: seq<Entry>)
    ensures forall x :: x in r <==> x == Entry(member, score) || (x in z && x.member != member)
    ensures |r| <= |z| + 1
  {
    var kept := Keep(z, OtherThan(member));
    assert forall x :: x in kept <==> x in z && x.member != member;
    Insert(kept, Entry(member, score))
  }

  /** ZADD keeps a sorted set a sorted set. */
  lemma ZAddWellFormed(z: seq<Entry>, member: string, score: int)
    requires WellFormed(z)
    ensures WellFormed(ZAdd(z, member, score))
  {
    var kept := Keep(z, OtherThan(member));
    KeepWellFormed(z, OtherThan(member));
    InsertWellFormed(kept, Entry(member, score));
  }

  /** ZADD sets the member's score and leaves every other member's alone. */
  lemma ZAddScores(z: seq<Entry>, member: string, score: int)
    requires WellFormed(z)
    ensures Scores(ZAdd(z, member, score)) == Scores(z)[member := score]
  {
    var r := ZAdd(z, member, score);
    ZAddWellFormed(z, member, score);
    EntriesAreScores(z);
    ScoresDetermineEntries(r, Scores(z)[member := score]);
  }

  /** ZADD adds one entry exactly when the member was not there before. */
  lemma ZAddSize(z: seq<Entry>, member: string, score: int)
    requires WellFormed(z)
    ensures |ZAdd(z, member, score)| == |z| + (if member in Scores(z) then 0 else 1)
  {
    ZAddWellFormed(z, member, score);
    ZAddScores(z, member, score);
    SizeIsMembers(z);
    SizeIsMembers(ZAdd(z, member, score));
  }

  /** A sorted set has as many entries as members. */
  lemma {:induction false} SizeIsMembers(z: seq<Entry>)
    requires DistinctMembers(z)
    ensures |Scores(z)| == |z|
  {
    if z != [] {
      var rest := z[1..];
      assert DistinctMembers(rest) by {
        forall i, j | 0 <= i < j < |rest| ensures rest[i].member != rest[j].member {
          assert rest[i] == z[i + 1] && rest[j] == z[j + 1];
        }
      }
      SizeIsMembers(rest);
      assert z[0].member !in Scores(rest);
      assert Scores(z) == Scores(rest)[z[0].member := z[0].score];
    }
  }

  /** Selects the entries scored in [lo, hi]. */
  function InRange(lo: int, hi: int): Entry -> bool
  {
    (x: Entry) => lo <= x.score <= hi
  }

  /** ZRANGE with BYSCORE: the members scored in [lo, hi], in Redis order. */
  function RangeByScore(z: seq<Entry>, lo: int, hi: int): (r: seq<string>)
    ensures |r| <= |z|
    ensures forall m :: m in r ==> exists x :: x in z && x.member == m && lo <= x.score <= hi
  {
    var es := Keep(z, InRange(lo, hi));
    var r := seq(|es|, i requires 0 <= i < |es| => es[i].member);
    assert forall m :: m in r ==> exists k :: 0 <= k < |es| && es[k].member == m && es[k] in es;
    r
  }

  /** A member of the score map together with its score. */
  function Point(sc: map<string, int>, m: string): Entry
    requires m in sc
  {
    Entry(m, sc[m])
  }

  /** `r` lists members of `sc` in strictly ascending Redis order. */
  ghost predicate SortedByScore(sc: map<string, int>, r: seq<string>)
  {
    && (forall i :: 0 <= i < |r| ==> r[i] in sc)
    && (forall i, j :: 0 <= i < j < |r| ==> r[i] in sc && r[j] in sc && Precedes(Point(sc, r[i]), Point(sc, r[j])))
  }

  /**
   * What ZRANGE BYSCORE promises on the abstract map: exactly the members
   * scored in [lo, hi], each once, ascending by score and then by member.
   */
  ghost predicate IsScoreRange(sc: map<string, int>, lo: int, hi: int, r: seq<string>)
  {
    && SortedByScore(sc, r)
    && (forall i, j :: 0 <= i < j < |r| ==> r[i] != r[j])
    && (forall m :: m in r <==> m in sc && lo <= sc[m] <= hi)
  }

  lemma RangeByScoreSpec(z: seq<Entry>, lo: int, hi: int)
    requires WellFormed(z)
    ensures IsScoreRange(Scores(z), lo, hi, RangeByScore(z, lo, hi))
  {
    var es := Keep(z, InRange(lo, hi));
    var r := RangeByScore(z, lo, hi);
    var sc := Scores(z);
    KeepWellFormed(z, InRange(lo, hi));
    RangeListsPoints(z, lo, hi);
    forall i, j | 0 <= i < j < |r|
      ensures r[i] in sc && r[j] in sc && Precedes(Point(sc, r[i]), Point(sc, r[j])) && r[i] != r[j]
    {
      assert Precedes(es[i], es[j]) && es[i].member != es[j].member;
    }
    RangeHasAllInRange(z, lo, hi);
  }

  /** Position by position, the range lists the entries ZRANGE keeps, read through the score map. */
  lemma RangeListsPoints(z: seq<Entry>, lo: int, hi: int)
    requires WellFormed(z)
    ensures var es, r := Keep(z, InRange(lo, hi)), RangeByScore(z, lo, hi);
      |r| == |es| && forall i :: 0 <= i < |r| ==> r[i] in Scores(z) && Point(Scores(z), r[i]) == es[i]
  {
    var es := Keep(z, InRange(lo, hi));
    EntriesAreScores(z);
    forall i | 0 <= i < |es| ensures es[i] in z {
      assert es[i] in es;
    }
  }

  /** The range holds every member scored in [lo, hi] and no other. */
  lemma RangeHasAllInRange(z: seq<Entry>, lo: int, hi: int)
    requires WellFormed(z)
    ensures forall m :: m in RangeByScore(z, lo, hi) <==> m in Scores(z) && lo <= Scores(z)[m] <= hi
  {
    var es := Keep(z, InRange(lo, hi));
    var r := RangeByScore(z, lo, hi);
    var sc := Scores(z);
    EntriesAreScores(z);
    forall x | x in es ensures x in z && lo <= x.score <= hi {
      assert InRange(lo, hi)(x);
    }
    forall m | m in r ensures m in sc && lo <= sc[m] <= hi {
      var k :| 0 <= k < |r| && r[k] == m;
      assert es[k] in es;
    }
    forall m | m in sc && lo <= sc[m] <= hi ensures m in r {
      assert Entry(m, sc[m]) in z;
      assert InRange(lo, hi)(Entry(m, sc[m]));
      assert Entry(m, sc[m]) in es;
      var k :| 0 <= k < |es| && es[k] == Entry(m, sc[m]);
      assert r[k] == m;
    }
  }

  /** Two sorted listings of the same members are the same listing. */
  lemma {:induction false} SortedByScoreUnique(sc: map<string, int>, r1: seq<string>, r2: seq<string>)
    requires SortedByScore(sc, r1) && SortedByScore(sc, r2)
    requires forall m :: m in r1 <==> m in r2
    ensures r1 == r2
  {
    assert r2 != [] ==> r2[0] in r2;
    if r1 != [] {
      assert r1[0] in r2;
      var k2 :| 0 <= k2 < |r2| && r2[k2] == r1[0];
      assert r2[0] in r1;
      var k1 :| 0 <= k1 < |r1| && r1[k1] == r2[0];
      if r1[0] != r2[0] {
        PrecedesTransitive(Point(sc, r1[0]), Point(sc, r2[0]), Point(sc, r1[0]));
        PrecedesIrreflexive(Point(sc, r1[0]));
      }
      forall m ensures m in r1[1..] <==> m in r2[1..] {
        if m in r1[1..] {
          var j :| 1 <= j < |r1| && r1[j] == m;
          PrecedesIrreflexive(Point(sc, m));
          assert m in r2;
          var k :| 0 <= k < |r2| && r2[k] == m;
          assert k != 0;
          assert r2[1..][k - 1] == m;
        }
        if m in r2[1..] {
          var j :| 1 <= j < |r2| && r2[j] == m;
          PrecedesIrreflexive(Point(sc, m));
          assert m in r1;
          var k :| 0 <= k < |r1| && r1[k] == m;
          assert k != 0;
          assert r1[1..][k - 1] == m;
        }
      }
      SortedByScoreUnique(sc, r1[1..], r2[1..]);
      assert r1 == [r1[0]] + r1[1..] && r2 == [r2[0]] + r2[1..];
    }
  }
}
