/**
 * The chat-history part of the companion app's MemoryManager: a thread key
 * derived from (companion name, model name, user id), one Redis sorted set
 * per thread holding chat lines scored by the time they were written,
 * a read of the latest 30 lines, and seeding of a thread from example
 * dialogue with the line numbers as scores.
 */
module Memory {

  import opened Wrappers
  import opened JsArrays
  import opened JsStrings
  import opened SortedSet
  import opened Redis

  /**
   * The `userId` a JavaScript caller passes: a string, or `undefined` when
   * it leaves the field out, or `null`.
   */
  datatype UserId = Undefined | Null | Text(id: string)

  /** A thread's identity. */
  datatype CompanionKey = CompanionKey(companionName: string, modelName: string, userId: UserId)

  /** How a template literal prints the user id. */
  function Interpolated(u: UserId): string
  {
    match u
    case Text(v) => v
    case Undefined => "undefined"
    case Null => "null"
  }

  /** The Redis key of a thread: the three fields joined with "-". */
  function ThreadKey(k: CompanionKey): (key: string)
    ensures |key| == |k.companionName| + |k.modelName| + |Interpolated(k.userId)| + 2
    ensures key[..|k.companionName|] == k.companionName && key[|k.companionName|] == '-'
    ensures key[|key| - |Interpolated(k.userId)|..] == Interpolated(k.userId)
    ensures key[|key| - |Interpolated(k.userId)| - 1] == '-'
  {
    k.companionName + "-" + k.modelName + "-" + Interpolated(k.userId)
  }

  /**
   * The guard of the write and the read: a key must be given and the type
   * of its `userId` must not be "undefined". An empty `userId` passes, and so
   * does `null`, whose type is "object".
   */
  predicate KeySetCorrectly(companionKey: Option<CompanionKey>): (ok: bool)
    ensures ok <==> companionKey.Some? && (companionKey.value.userId.Text? || companionKey.value.userId.Null?)
  {
    companionKey.Some? && !companionKey.value.userId.Undefined?
  }

  /** How many of the latest lines a read returns. */
  const HistoryLimit: int := 30

  /** The separator of the lines a read returns, and the default seed delimiter. */
  const Newline: string := "\n"

  /** The lines a read at time `now` returns: the last 30 scored in [0, now]. */
  function LatestWindow(z: seq<Entry>, now: int): (lines: seq<string>)
    ensures |lines| <= HistoryLimit
    ensures forall m :: m in lines ==> m in RangeByScore(z, 0, now)
  {
    SliceFrom(RangeByScore(z, 0, now), -HistoryLimit)
  }

  /** The sorted set after seeding: line i added with score i, in order. */
  function Seeded(z: seq<Entry>, lines: seq<string>): (r: seq<Entry>)
    ensures |r| <= |z| + |lines|
    ensures forall l :: l in lines ==> l in Members(r)
    decreases |lines|
  {
    if lines == [] then z
    else
      var n := |lines| - 1;
      var before := Seeded(z, lines[..n]);
      var r := SortedSet.ZAdd(before, lines[n], n);
      forall l | l in lines ensures l in Members(r) {
        if l == lines[n] {
          assert Entry(l, n) in r;
        } else {
          var k :| 0 <= k < |lines| && lines[k] == l;
          assert lines[..n][k] == l;
          assert l in Members(before);
          var x :| x in before && x.member == l;
          assert x in r;
        }
      }
      r
  }

  /** One turn of the seeding loop: the database after i lines, then line i. */
  lemma SeedStep(data0: Db, key: string, lines: seq<string>, i: int, data: Db)
    requires 0 <= i < |lines|
    requires i == 0 ==> data == data0
    requires 0 < i ==> data == data0[key := Seeded(Lookup(data0, key), lines[..i])]
    ensures data[key := SortedSet.ZAdd(Lookup(data, key), lines[i], i)]
         == data0[key := Seeded(Lookup(data0, key), lines[..i + 1])]
  {
    var before := Lookup(data0, key);
    var current := Seeded(before, lines[..i]);
    if i == 0 {
      assert lines[..0] == [];
    }
    assert Lookup(data, key) == current;
    SeededSnoc(before, lines, i);
    UpdateOverwrites(data0, key, current, data, SortedSet.ZAdd(current, lines[i], i));
  }

  /** Writing a key again overwrites whatever an earlier write left there. */
  lemma UpdateOverwrites(data0: Db, key: string, earlier: seq<Entry>, data: Db, later: seq<Entry>)
    requires data == data0 || data == data0[key := earlier]
    ensures data[key := later] == data0[key := later]
  {
  }

  /** Seeding one more line is one more ZADD, with the line's index as score. */
  lemma SeededSnoc(z: seq<Entry>, lines: seq<string>, i: int)
    requires 0 <= i < |lines|
    ensures Seeded(z, lines[..i + 1]) == SortedSet.ZAdd(Seeded(z, lines[..i]), lines[i], i)
  {
    assert lines[..i + 1][..i] == lines[..i];
  }

  /**
   * What the write returns: the empty string when the key is set
   * incorrectly, otherwise ZADD's count of members added.
   */
  datatype WriteResult = Skipped | Added(count: nat)

  /** Seeding with no key at all fails reading a field of `undefined`. */
  datatype SeedOutcome = Completed | ThrewTypeError

  class MemoryManager {

    /** The Redis client; `Redis.fromEnv()` connects it to the configured database. */
    const history: RedisStore

    constructor (db: RedisStore)
      ensures history == db
    {
      history := db;
    }

    /** Adds `text` to its thread with the clock reading `now` as score. */
    method WriteToHistory(text: string, companionKey: Option<CompanionKey>, now: nat)
      returns (result: WriteResult)
      requires history.Valid()
      modifies history
      ensures history.Valid()
      ensures !KeySetCorrectly(companionKey) ==>
                result == Skipped && history.data == old(history.data)
      ensures KeySetCorrectly(companionKey) ==>
                var key := ThreadKey(companionKey.value);
                var before := Lookup(old(history.data), key);
                && history.data == old(history.data)[key := SortedSet.ZAdd(before, text, now)]
                && Scores(Lookup(history.data, key)) == Scores(before)[text := now]
                && result == Added(if text in Scores(before) then 0 else 1)
    {
      if !KeySetCorrectly(companionKey) {
        return Skipped;
      }
      var key := ThreadKey(companionKey.value);
      ZAddScores(Lookup(history.data, key), text, now);
      var added := history.ZAdd(key, now, text);
      result := Added(added);
    }

    /**
     * The thread's latest lines, oldest first, joined by newlines. The two
     * reversals of the window cancel out.
     */
    method ReadLatestHistory(companionKey: Option<CompanionKey>, now: nat) returns (recentChat: string)
      requires history.Valid()
      ensures !KeySetCorrectly(companionKey) ==> recentChat == ""
      ensures KeySetCorrectly(companionKey) ==>
                recentChat == Join(LatestWindow(Lookup(history.data, ThreadKey(companionKey.value)), now), Newline)
      ensures KeySetCorrectly(companionKey) && ThreadKey(companionKey.value) !in history.data ==>
                recentChat == ""
    {
      if !KeySetCorrectly(companionKey) {
        return "";
      }
      var key := ThreadKey(companionKey.value);
      var result := history.ZRangeByScore(key, 0, now);
      result := Reverse(SliceFrom(result, -HistoryLimit));
      ReverseInvolutive(SliceFrom(RangeByScore(Lookup(history.data, key), 0, now), -HistoryLimit));
      recentChat := Join(Reverse(result), Newline);
    }

    /**
     * Splits `seedContent` on `delimiter` and adds piece i with score i.
     * Whether the thread already exists is looked up but does not change
     * what is written, and `userId` is not checked.
     */
    method SeedChatHistory(seedContent: string, delimiter: string := Newline,
                           nameonly companionKey: Option<CompanionKey>)
      returns (outcome: SeedOutcome)
      requires |delimiter| > 0
      requires history.Valid()
      modifies history
      ensures history.Valid()
      ensures companionKey.None? ==>
                outcome == ThrewTypeError && history.data == old(history.data)
      ensures companionKey.Some? ==>
                var key := ThreadKey(companionKey.value);
                && outcome == Completed
                && history.data == old(history.data)[key := Seeded(Lookup(old(history.data), key), Split(seedContent, delimiter))]
    {
      if companionKey.None? {
        return ThrewTypeError;
      }
      var key := ThreadKey(companionKey.value);
      var alreadySeeded := history.Exists(key);

      var content := Split(seedContent, delimiter);
      ghost var data0 := history.data;
      ghost var before := Lookup(data0, key);
      var counter := 0;
      for i := 0 to |content|
        invariant history.Valid()
        invariant counter == i
        invariant i == 0 ==> history.data == data0
        invariant 0 < i ==> history.data == data0[key := Seeded(before, content[..i])]
      {
        var line := content[i];
        SeedStep(data0, key, content, i, history.data);
        var added := history.ZAdd(key, counter, line);
        counter := counter + 1;
      }
      assert content[..|content|] == content;
      outcome := Completed;
    }
  }

  /** The static `MemoryManager.instance` field behind `getInstance`. */
  class InstanceSlot {

    var instance: MemoryManager?

    /** How many times `getInstance` has run the constructor. */
    ghost var constructions: nat

    ghost predicate Valid()
      reads this
    {
      constructions == if instance == null then 0 else 1
    }

    constructor ()
      ensures Valid() && instance == null
    {
      instance := null;
      constructions := 0;
    }

    /** Creates the manager on the first call and returns that one ever after. */
    method GetInstance(db: RedisStore) returns (manager: MemoryManager)
      requires Valid()
      modifies this
      ensures Valid() && instance == manager
      ensures old(instance) != null ==> manager == old(instance) && constructions == old(constructions)
      ensures old(instance) == null ==>
                fresh(manager) && manager.history == db && constructions == old(constructions) + 1
    {
      if instance == null {
        instance := new MemoryManager(db);
        constructions := constructions + 1;
      }
      manager := instance;
    }
  }

  /** Any number of `getInstance` calls share one manager, constructed once. */
  method GetInstanceTwice(slot: InstanceSlot, db: RedisStore) returns (first: MemoryManager, second: MemoryManager)
    requires slot.Valid()
    modifies slot
    ensures first == second && slot.instance == first
    ensures slot.constructions == 1
  {
    first := slot.GetInstance(db);
    second := slot.GetInstance(db);
  }
}
