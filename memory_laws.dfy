/**
 * Properties of the chat-history model: how thread keys can collide, what
 * a read returns, where seeded lines land, and concrete scenarios.
 */
module MemoryLaws {

  import opened Wrappers
  import opened CodePointOrder
  import opened JsArrays
  import opened JsStrings
  import opened SortedSet
  import opened Redis
  import opened Memory

  // ----- Thread keys -----

  lemma DashAt(x: string, y: string)
    ensures (x + "-" + y)[|x|] == '-'
  {
  }

  /** The first "-" of `x + "-" + y` is the one after `x` when `x` has none. */
  lemma DashAfterPrefix(x: string, y: string, u: string, v: string)
    requires '-' !in u
    requires x + "-" + y == u + "-" + v
    ensures |u| <= |x|
  {
    if |x| < |u| {
      DashAt(x, y);
      assert false;
    }
  }

  lemma SplitAtFirstDash(x: string, y: string, u: string, v: string)
    requires '-' !in x && '-' !in u
    requires x + "-" + y == u + "-" + v
    ensures x == u && y == v
  {
    DashAfterPrefix(x, y, u, v);
    DashAfterPrefix(u, v, x, y);
    var s := x + "-" + y;
    assert x == s[..|x|] == u;
    assert y == s[|x| + 1..] == v;
  }

  /**
   * When neither the companion name nor the model name contains "-", the
   * thread key determines the triple (with an undefined `userId` printed
   * as "undefined").
   */
  lemma ThreadKeyInjectiveWithoutDash(a: CompanionKey, b: CompanionKey)
    requires '-' !in a.companionName && '-' !in a.modelName
    requires '-' !in b.companionName && '-' !in b.modelName
    requires ThreadKey(a) == ThreadKey(b)
    ensures a.companionName == b.companionName && a.modelName == b.modelName
    ensures Interpolated(a.userId) == Interpolated(b.userId)
  {
    var ua, ub := Interpolated(a.userId), Interpolated(b.userId);
    assert ThreadKey(a) == a.companionName + "-" + (a.modelName + "-" + ua);
    assert ThreadKey(b) == b.companionName + "-" + (b.modelName + "-" + ub);
    SplitAtFirstDash(a.companionName, a.modelName + "-" + ua, b.companionName, b.modelName + "-" + ub);
    SplitAtFirstDash(a.modelName, ua, b.modelName, ub);
  }

  /** Different triples can share a thread when a name contains "-". */
  lemma ThreadKeyCollision()
    ensures CompanionKey("a-b", "c", Text("d")) != CompanionKey("a", "b-c", Text("d"))
    ensures ThreadKey(CompanionKey("a-b", "c", Text("d"))) == ThreadKey(CompanionKey("a", "b-c", Text("d")))
  {
  }

  /** An undefined `userId` lands in the thread of the user named "undefined". */
  lemma UndefinedUserIdSharesThread(companionName: string, modelName: string)
    ensures ThreadKey(CompanionKey(companionName, modelName, Undefined))
         == ThreadKey(CompanionKey(companionName, modelName, Text("undefined")))
  {
  }

  /**
   * A `null` userId passes the guard of the write and the read, and its
   * thread is that of the user named "null"; an undefined one is stopped.
   */
  lemma NullUserIdPassesGuard(companionName: string, modelName: string)
    ensures KeySetCorrectly(Some(CompanionKey(companionName, modelName, Null)))
    ensures !KeySetCorrectly(Some(CompanionKey(companionName, modelName, Undefined)))
    ensures ThreadKey(CompanionKey(companionName, modelName, Null))
         == ThreadKey(CompanionKey(companionName, modelName, Text("null")))
  {
  }

  // ----- Reading the latest history -----

  /** A read returns the last min(30, n) of the n members scored in [0, now]. */
  lemma LatestWindowSize(z: seq<Entry>, now: int)
    ensures var r, w := RangeByScore(z, 0, now), LatestWindow(z, now);
      |w| == (if |r| < HistoryLimit then |r| else HistoryLimit) && w == r[|r| - |w|..]
  {
  }

  /** A read returns members scored in [0, now], each once, ascending. */
  lemma LatestWindowSorted(z: seq<Entry>, now: int)
    requires WellFormed(z)
    ensures SortedByScore(Scores(z), LatestWindow(z, now))
    ensures forall m :: m in LatestWindow(z, now) ==> m in Scores(z) && 0 <= Scores(z)[m] <= now
  {
    var r := RangeByScore(z, 0, now);
    RangeByScoreSpec(z, 0, now);
    SuffixSorted(Scores(z), r, |r| - |LatestWindow(z, now)|);
  }

  /** A suffix of a sorted listing is sorted and lists only members of the listing. */
  lemma SuffixSorted(sc: map<string, int>, r: seq<string>, start: nat)
    requires SortedByScore(sc, r) && start <= |r|
    ensures SortedByScore(sc, r[start..])
    ensures forall m :: m in r[start..] ==> m in r
  {
    var w := r[start..];
    forall i, j | 0 <= i < j < |w|
      ensures w[i] in sc && w[j] in sc && Precedes(Point(sc, w[i]), Point(sc, w[j]))
    {
      assert w[i] == r[start + i] && w[j] == r[start + j];
    }
    forall m | m in w ensures m in r {
      var k :| 0 <= k < |w| && w[k] == m;
      assert r[start + k] == m;
    }
  }

  /**
   * The read keeps the newest members: every member scored in [0, now]
   * that it leaves out sorts before every member it returns.
   */
  lemma LatestWindowIsNewest(z: seq<Entry>, now: int)
    requires WellFormed(z)
    ensures forall m, x :: m in RangeByScore(z, 0, now) && m !in LatestWindow(z, now) && x in LatestWindow(z, now) ==>
              m in Scores(z) && x in Scores(z) && Precedes(Point(Scores(z), m), Point(Scores(z), x))
  {
    var r := RangeByScore(z, 0, now);
    RangeByScoreSpec(z, 0, now);
    SuffixFollows(Scores(z), r, |r| - |LatestWindow(z, now)|);
  }

  /** In a sorted listing, whatever a suffix leaves out sorts before all of the suffix. */
  lemma SuffixFollows(sc: map<string, int>, r: seq<string>, start: nat)
    requires SortedByScore(sc, r) && start <= |r|
    ensures forall m, x :: m in r && m !in r[start..] && x in r[start..] ==>
              m in sc && x in sc && Precedes(Point(sc, m), Point(sc, x))
  {
    var w := r[start..];
    forall t | start <= t < |r| ensures r[t] in w {
      assert w[t - start] == r[t];
    }
    forall m, x | m in r && m !in w && x in w
      ensures m in sc && x in sc && Precedes(Point(sc, m), Point(sc, x))
    {
      var i :| 0 <= i < |r| && r[i] == m;
      var k :| 0 <= k < |w| && w[k] == x;
      assert r[start + k] == x;
    }
  }

  /** The read depends only on the member-to-score map, not on how it is stored. */
  lemma ReadDependsOnlyOnScores(z1: seq<Entry>, z2: seq<Entry>, now: int)
    requires WellFormed(z1) && WellFormed(z2)
    requires Scores(z1) == Scores(z2)
    ensures LatestWindow(z1, now) == LatestWindow(z2, now)
  {
    RangeByScoreSpec(z1, 0, now);
    RangeByScoreSpec(z2, 0, now);
    SortedByScoreUnique(Scores(z1), RangeByScore(z1, 0, now), RangeByScore(z2, 0, now));
  }

  /** The source's `slice(-30).reverse()` followed by `reverse()` is `slice(-30)`. */
  lemma DoubleReverseIsWindow(r: seq<string>)
    ensures Reverse(Reverse(SliceFrom(r, -HistoryLimit))) == SliceFrom(r, -HistoryLimit)
  {
    ReverseInvolutive(SliceFrom(r, -HistoryLimit));
  }

  // ----- Seeding -----

  /** The index of the last occurrence of `l` in `lines`. */
  function LastIndex(lines: seq<string>, l: string): (i: nat)
    requires l in lines
    ensures i < |lines| && lines[i] == l
    ensures forall j :: i < j < |lines| ==> lines[j] != l
    decreases |lines|
  {
    if lines[|lines| - 1] == l then |lines| - 1
    else
      assert l in lines[..|lines| - 1] by {
        var k :| 0 <= k < |lines| && lines[k] == l;
        assert lines[..|lines| - 1][k] == l;
      }
      LastIndex(lines[..|lines| - 1], l)
  }

  /** Each seeded line with the score of its last occurrence. */
  function LastIndices(lines: seq<string>): map<string, int>
  {
    map l | l in lines :: LastIndex(lines, l)
  }

  lemma UpdateAfterUnion<K, V>(a: map<K, V>, b: map<K, V>, k: K, v: V)
    ensures (a + b)[k := v] == a + b[k := v]
  {
  }

  /** Seeding one more line moves that line to the new last index. */
  lemma LastIndicesSnoc(lines: seq<string>)
    requires lines != []
    ensures LastIndices(lines) == LastIndices(lines[..|lines| - 1])[lines[|lines| - 1] := |lines| - 1]
  {
    var n := |lines| - 1;
    var init := lines[..n];
    assert lines == init + [lines[n]];
    assert forall l :: l in lines <==> l in init || l == lines[n];
  }

  /**
   * Seeding keeps a sorted set well formed and gives each line the index of
   * its last occurrence as its score; members that are not seed lines keep
   * their scores.
   */
  lemma {:induction false} SeededScores(z: seq<Entry>, lines: seq<string>)
    requires WellFormed(z)
    ensures WellFormed(Seeded(z, lines))
    ensures Scores(Seeded(z, lines)) == Scores(z) + LastIndices(lines)
    decreases |lines|
  {
    if lines == [] {
      assert LastIndices(lines) == map[];
    } else {
      var n := |lines| - 1;
      var init := lines[..n];
      var before := Seeded(z, init);
      SeededScores(z, init);
      ZAddWellFormed(before, lines[n], n);
      ZAddScores(before, lines[n], n);
      LastIndicesSnoc(lines);
      assert Seeded(z, lines) == SortedSet.ZAdd(before, lines[n], n);
      UpdateAfterUnion(Scores(z), LastIndices(init), lines[n], n);
    }
  }

  /** Seeded scores run from 0 to one less than the number of pieces. */
  lemma SeededScoresBelowCount(lines: seq<string>)
    ensures forall m :: m in Scores(Seeded([], lines)) ==> 0 <= Scores(Seeded([], lines))[m] < |lines|
    ensures forall m :: m in Scores(Seeded([], lines)) <==> m in lines
  {
    SeededScores([], lines);
    assert Scores([]) == map[];
  }

  /**
   * Seeding the same content again, which the existence check does not
   * prevent, leaves every member's score as it was after the first seeding.
   */
  lemma ReseedingKeepsScores(z: seq<Entry>, lines: seq<string>)
    requires WellFormed(z)
    ensures Scores(Seeded(Seeded(z, lines), lines)) == Scores(Seeded(z, lines))
  {
    SeededScores(z, lines);
    SeededScores(Seeded(z, lines), lines);
  }

  /** Seeding "a\nb\nc" on newlines gives "a", "b", "c" the scores 0, 1, 2. */
  lemma SeedThreeLines()
    ensures Scores(Seeded([], Split("a\nb\nc", Newline))) == map["a" := 0, "b" := 1, "c" := 2]
  {
    var lines := Split("a\nb\nc", Newline);
    SeededFromEmpty(lines);
    SplitThreeLines();
    LastIndicesOfThreeLines();
  }

  /** Seeding a new thread gives each piece the index of its last occurrence, and nothing else. */
  lemma SeededFromEmpty(lines: seq<string>)
    ensures Scores(Seeded([], lines)) == LastIndices(lines)
  {
    SeededScores([], lines);
    assert Scores([]) == map[];
  }

  lemma LastIndicesOfThreeLines()
    ensures LastIndices(["a", "b", "c"]) == map["a" := 0, "b" := 1, "c" := 2]
  {
    var lines := ["a", "b", "c"];
    assert lines[..2] == ["a", "b"] && lines[..2][..1] == ["a"];
    assert LastIndex(lines, "a") == 0;
    assert LastIndex(lines, "b") == 1;
    assert LastIndex(lines, "c") == 2;
    assert LastIndices(lines).Keys == {"a", "b", "c"};
  }

  /**
   * After seeding a thread, whether it was new or already held lines, a line
   * written live at a time not below the number of seed pieces comes after
   * every other seed line in a later range read.
   */
  lemma SeededLinesPrecedeLiveWrite(z: seq<Entry>, lines: seq<string>, text: string, now: int, later: int)
    requires WellFormed(z)
    requires |lines| <= now <= later
    ensures var r := RangeByScore(SortedSet.ZAdd(Seeded(z, lines), text, now), 0, later);
      && text in r
      && (forall l :: l in lines ==> l in r)
      && (forall i, j :: 0 <= i < |r| && 0 <= j < |r| && r[i] in lines && r[i] != text && r[j] == text ==> i < j)
  {
    var live := SortedSet.ZAdd(Seeded(z, lines), text, now);
    LiveWriteAfterSeed(z, lines, text, now);
    RangeByScoreSpec(live, 0, later);
    LiveLineListedLast(Scores(live), RangeByScore(live, 0, later), lines, text, now, later);
  }

  /**
   * In a range over [0, later], lines scored below `now` are all listed, and
   * listed before the line scored `now`.
   */
  lemma LiveLineListedLast(sc: map<string, int>, r: seq<string>, lines: seq<string>, text: string, now: int, later: int)
    requires IsScoreRange(sc, 0, later, r)
    requires 0 <= now <= later
    requires text in sc && sc[text] == now
    requires forall l :: l in lines ==> l in sc
    requires forall l :: l in lines && l != text ==> 0 <= sc[l] < now
    ensures text in r
    ensures forall l :: l in lines ==> l in r
    ensures forall i, j :: 0 <= i < |r| && 0 <= j < |r| && r[i] in lines && r[i] != text && r[j] == text ==> i < j
  {
    forall i, j | 0 <= i < |r| && 0 <= j < |r| && r[i] in lines && r[i] != text && r[j] == text
      ensures i < j
    {
      LowerScoreListedFirst(sc, r, i, j);
    }
  }

  /**
   * The scores after seeding a thread, new or not, and then writing one line
   * live: the live line has the clock reading, every other seed line an
   * index below it.
   */
  lemma LiveWriteAfterSeed(z: seq<Entry>, lines: seq<string>, text: string, now: int)
    requires WellFormed(z)
    requires |lines| <= now
    ensures var live := SortedSet.ZAdd(Seeded(z, lines), text, now);
      && WellFormed(live)
      && text in Scores(live) && Scores(live)[text] == now
      && (forall l :: l in lines ==> l in Scores(live))
      && (forall l :: l in lines && l != text ==> 0 <= Scores(live)[l] < now)
  {
    var s := Seeded(z, lines);
    SeededScores(z, lines);
    forall l | l in lines ensures l in Scores(s) && 0 <= Scores(s)[l] < |lines| {
      assert l in LastIndices(lines);
    }
    ZAddWellFormed(s, text, now);
    ZAddScores(s, text, now);
  }

  /** In a sorted listing, a member with a lower score comes first. */
  lemma LowerScoreListedFirst(sc: map<string, int>, r: seq<string>, i: int, j: int)
    requires SortedByScore(sc, r)
    requires 0 <= i < |r| && 0 <= j < |r|
    requires r[i] in sc && r[j] in sc && sc[r[i]] < sc[r[j]]
    ensures i < j
  {
  }

  // ----- Concrete behaviour of the store -----

  /** Writing the same line twice keeps one entry, with the later score. */
  lemma RepeatedLineKeepsLatestOnly(z: seq<Entry>, text: string, t1: int, t2: int)
    requires WellFormed(z)
    ensures Scores(SortedSet.ZAdd(SortedSet.ZAdd(z, text, t1), text, t2)) == Scores(z)[text := t2]
    ensures |SortedSet.ZAdd(SortedSet.ZAdd(z, text, t1), text, t2)| == |SortedSet.ZAdd(z, text, t1)|
  {
    var once := SortedSet.ZAdd(z, text, t1);
    ZAddWellFormed(z, text, t1);
    ZAddScores(z, text, t1);
    RewriteKeepsLatest(once, Scores(z), text, t1, t2);
  }

  /** A second write of a member already written replaces its score and adds no entry. */
  lemma RewriteKeepsLatest(once: seq<Entry>, before: map<string, int>, text: string, t1: int, t2: int)
    requires WellFormed(once)
    requires Scores(once) == before[text := t1]
    ensures Scores(SortedSet.ZAdd(once, text, t2)) == before[text := t2]
    ensures |SortedSet.ZAdd(once, text, t2)| == |once|
  {
    var twice := SortedSet.ZAdd(once, text, t2);
    assert |twice| == |once| by {
      assert text in Scores(once);
      ZAddSize(once, text, t2);
    }
    assert Scores(twice) == Scores(once)[text := t2] by {
      ZAddScores(once, text, t2);
    }
    UpdateTwice(before, text, t1, t2);
  }

  lemma UpdateTwice<K, V>(m: map<K, V>, k: K, a: V, b: V)
    ensures m[k := a][k := b] == m[k := b]
  {
  }

  /** "hello" then, a millisecond later, "world": a read returns both in that order. */
  lemma HelloWorldScenario(t: nat)
    ensures Join(LatestWindow(SortedSet.ZAdd(SortedSet.ZAdd([], "hello", t), "world", t + 1), t + 1), Newline)
         == "hello\nworld"
  {
    var z1 := SortedSet.ZAdd([], "hello", t);
    assert z1 == [Entry("hello", t)];
    assert Keep(z1, OtherThan("world")) == z1;
    var z2 := SortedSet.ZAdd(z1, "world", t + 1);
    assert !Precedes(Entry("world", t + 1), Entry("hello", t));
    assert Insert([], Entry("world", t + 1)) == [Entry("world", t + 1)];
    assert z2 == [Entry("hello", t), Entry("world", t + 1)];
    assert Keep(z2, InRange(0, t + 1)) == z2;
    assert RangeByScore(z2, 0, t + 1) == ["hello", "world"];
  }

  /**
   * Two lines written in the same millisecond are read back in code-point
   * order of their text, not in the order they were written.
   */
  lemma SameMillisecondOrdersByText(t: nat)
    ensures LatestWindow(SortedSet.ZAdd(SortedSet.ZAdd([], "b", t), "a", t), t) == ["a", "b"]
  {
    var z1 := SortedSet.ZAdd([], "b", t);
    assert z1 == [Entry("b", t)];
    assert Keep(z1, OtherThan("a")) == z1;
    assert Below("a", "b");
    var z2 := SortedSet.ZAdd(z1, "a", t);
    assert z2 == [Entry("a", t), Entry("b", t)];
    assert Keep(z2, InRange(0, t)) == z2;
    assert RangeByScore(z2, 0, t) == ["a", "b"];
  }

  /**
   * On a new database, "hello" and then, a millisecond later, "world" are
   * written to one thread through the manager; a read at the later time
   * returns both lines in that order.
   */
  method HelloWorldSession(t: nat) returns (recentChat: string)
    ensures recentChat == "hello\nworld"
  {
    var db := new RedisStore();
    var manager := new MemoryManager(db);
    var key := Some(CompanionKey("companion", "model", Text("user_1")));
    var first := manager.WriteToHistory("hello", key, t);
    var second := manager.WriteToHistory("world", key, t + 1);
    recentChat := manager.ReadLatestHistory(key, t + 1);
    HelloWorldScenario(t);
  }
}
