/**
  The in-memory store `MemStorage` (server/storage.ts, lines 18-67): a user map with an id
  counter, and an append-only log of FLAMES calculations with its own id counter.

  Timestamps are kept as the milliseconds that `new Date(timestamp).getTime()` reads back
  from the stored ISO string; the log is ordered for the "recent" query by a stable sort on
  them, newest first.
*/
module Storage {
  import opened Wrappers

  datatype InsertUser = InsertUser(username: string, password: string)

  datatype User = User(id: int, username: string, password: string)

  /** A calculation as the route hands it to the store, before it has an id. */
  datatype NewCalculation = NewCalculation(name1: string, name2: string, result: string, compatibility: int, timestamp: int)

  datatype FlamesCalculation = FlamesCalculation(
    id: int, name1: string, name2: string, result: string, compatibility: int, timestamp: int)

  /** `{ ...calculation, id }`. */
  function WithId(c: NewCalculation, id: int): (r: FlamesCalculation)
    ensures r.id == id && r.timestamp == c.timestamp
    ensures r.name1 == c.name1 && r.name2 == c.name2 && r.result == c.result && r.compatibility == c.compatibility
  {
    FlamesCalculation(id, c.name1, c.name2, c.result, c.compatibility, c.timestamp)
  }

  // ---------------------------------------------------------------------------------------
  // Sorting the log by timestamp, newest first
  // ---------------------------------------------------------------------------------------

  /**
    The order the "recent" query produces: newer first, and among equal timestamps the
    entry logged earlier (smaller id) first.
  */
  predicate Before(a: FlamesCalculation, b: FlamesCalculation)
  {
    a.timestamp > b.timestamp || (a.timestamp == b.timestamp && a.id < b.id)
  }

  predicate NewestFirst(s: seq<FlamesCalculation>)
  {
    forall i, j :: 0 <= i < j < |s| ==> s[i].timestamp >= s[j].timestamp
  }

  predicate InRecencyOrder(s: seq<FlamesCalculation>)
  {
    forall i, j :: 0 <= i < j < |s| ==> Before(s[i], s[j])
  }

  predicate IdsIncreasing(s: seq<FlamesCalculation>)
  {
    forall i, j :: 0 <= i < j < |s| ==> s[i].id < s[j].id
  }

  /** Places `x` before the first entry that is not newer than it. */
  function Insert(x: FlamesCalculation, s: seq<FlamesCalculation>): (r: seq<FlamesCalculation>)
    ensures multiset(r) == multiset(s) + multiset{x}
    ensures |r| == |s| + 1
  {
    if s == [] || x.timestamp >= s[0].timestamp then [x] + s
    else
      assert s == [s[0]] + s[1..];
      [s[0]] + Insert(x, s[1..])
  }

  /**
    `.sort((a, b) => time(b) - time(a))`: a stable sort on the timestamp, newest first.
    `Array.prototype.sort` is stable, so entries whose comparator value is 0 keep their order.
  */
  function SortByTimeDesc(s: seq<FlamesCalculation>): (r: seq<FlamesCalculation>)
    ensures multiset(r) == multiset(s)
    ensures |r| == |s|
  {
    if s == [] then []
    else
      assert s == [s[0]] + s[1..];
      Insert(s[0], SortByTimeDesc(s[1..]))
  }

  /** An entry that comes before every entry of a sequence in recency order can lead it. */
  lemma ConsInOrder(a: FlamesCalculation, r: seq<FlamesCalculation>)
    requires InRecencyOrder(r)
    requires forall k :: 0 <= k < |r| ==> Before(a, r[k])
    ensures InRecencyOrder([a] + r)
  {
    forall i, j | 0 <= i < j < |r| + 1 ensures Before(([a] + r)[i], ([a] + r)[j]) {
      assert ([a] + r)[j] == r[j - 1];
      if i > 0 {
        assert ([a] + r)[i] == r[i - 1];
      }
    }
  }

  lemma {:induction false} InsertInOrder(x: FlamesCalculation, s: seq<FlamesCalculation>)
    requires InRecencyOrder(s)
    requires forall k :: 0 <= k < |s| ==> x.id < s[k].id
    ensures InRecencyOrder(Insert(x, s))
  {
    if s == [] || x.timestamp >= s[0].timestamp {
      ConsInOrder(x, s);
    } else {
      var t := s[1..];
      assert InRecencyOrder(t) by {
        forall i, j | 0 <= i < j < |t| ensures Before(t[i], t[j]) {
          assert t[i] == s[i + 1] && t[j] == s[j + 1];
        }
      }
      assert forall k :: 0 <= k < |t| ==> x.id < t[k].id by {
        forall k | 0 <= k < |t| ensures x.id < t[k].id {
          assert t[k] == s[k + 1];
        }
      }
      InsertInOrder(x, t);
      var r := Insert(x, t);
      forall k | 0 <= k < |r| ensures Before(s[0], r[k]) {
        assert r[k] in multiset(t) + multiset{x};
        if r[k] != x {
          var j :| 0 <= j < |t| && t[j] == r[k];
          assert s[j + 1] == r[k];
        }
      }
      ConsInOrder(s[0], r);
    }
  }

  /** A log whose ids increase comes out of the sort in recency order: newest first, ties oldest first. */
  lemma {:induction false} SortInRecencyOrder(s: seq<FlamesCalculation>)
    requires IdsIncreasing(s)
    ensures InRecencyOrder(SortByTimeDesc(s))
  {
    if s != [] {
      var t := s[1..];
      assert IdsIncreasing(t);
      SortInRecencyOrder(t);
      var r := SortByTimeDesc(t);
      forall k | 0 <= k < |r| ensures s[0].id < r[k].id {
        assert r[k] in multiset(t);
      }
      InsertInOrder(s[0], r);
    }
  }

  /** Recency order implies the timestamps never increase, which is what the comparator asks for. */
  lemma RecencyIsNewestFirst(s: seq<FlamesCalculation>)
    requires InRecencyOrder(s)
    ensures NewestFirst(s)
  {
  }

  function Reverse<T>(s: seq<T>): (r: seq<T>)
    ensures |r| == |s|
  {
    if s == [] then [] else Reverse(s[1..]) + [s[0]]
  }

  /** When the clock only moves forward between saves, the recent list is the log reversed. */
  lemma {:induction false} StrictlyNewerGivesReversedLog(s: seq<FlamesCalculation>)
    requires forall i, j :: 0 <= i < j < |s| ==> s[i].timestamp < s[j].timestamp
    ensures SortByTimeDesc(s) == Reverse(s)
  {
    if s != [] {
      var t := s[1..];
      StrictlyNewerGivesReversedLog(t);
      var r := SortByTimeDesc(t);
      forall k | 0 <= k < |r| ensures s[0].timestamp < r[k].timestamp {
        assert r[k] in multiset(t);
      }
      InsertOldest(s[0], r);
    }
  }

  /** An entry older than all the others goes to the end. */
  lemma {:induction false} InsertOldest(x: FlamesCalculation, r: seq<FlamesCalculation>)
    requires forall k :: 0 <= k < |r| ==> x.timestamp < r[k].timestamp
    ensures Insert(x, r) == r + [x]
  {
    if r != [] {
      InsertOldest(x, r[1..]);
      assert r == [r[0]] + r[1..];
    }
  }

  // ---------------------------------------------------------------------------------------
  // The store
  // ---------------------------------------------------------------------------------------

  class MemStorage {
    var users: map<int, User>
    var flamesCalculations: seq<FlamesCalculation>
    var userId: int
    var flamesId: int

    /**
      Users are keyed by the ids 1 .. userId - 1 that `createUser` handed out, each user
      carrying its own key; calculation i of the log (from 0) has id i + 1 and the next id is
      one past the log's length.
    */
    ghost predicate Valid()
      reads this
    {
      userId >= 1
      && (forall id :: id in users <==> 1 <= id < userId)
      && (forall id :: id in users ==> users[id].id == id)
      && flamesId == |flamesCalculations| + 1
      && (forall i :: 0 <= i < |flamesCalculations| ==> flamesCalculations[i].id == i + 1)
    }

    /** Lines 24-29: no users, an empty log and both counters at 1. */
    constructor()
      ensures Valid()
      ensures users == map[] && flamesCalculations == [] && userId == 1 && flamesId == 1
    {
      users := map[];
      flamesCalculations := [];
      userId := 1;
      flamesId := 1;
    }

    /** Lines 31-33: defined exactly for the ids handed out so far, and the user found carries that id. */
    function GetUser(id: int): (r: Option<User>)
      reads this
      requires Valid()
      ensures r.Some? <==> 1 <= id < userId
      ensures r.Some? ==> r.value.id == id
    {
      if id in users then Some(users[id]) else None
    }

    /**
      Lines 35-39: `find` over `users.values()`. A `Map` iterates in insertion order, and
      `createUser` inserts strictly increasing fresh ids, so the values come in the order
      of their ids; the first user with the name is the one created earliest.
    */
    method GetUserByUsername(username: string) returns (r: Option<User>)
      requires Valid()
      ensures r.Some? ==> r.value.id in users && users[r.value.id] == r.value && r.value.username == username
      ensures r.Some? ==> forall id :: id in users && id < r.value.id ==> users[id].username != username
      ensures r.None? ==> forall id :: id in users ==> users[id].username != username
    {
      var id := 1;
      while id < userId
        invariant 1 <= id <= userId
        invariant forall k :: 1 <= k < id ==> users[k].username != username
      {
        if users[id].username == username {
          return Some(users[id]);
        }
        id := id + 1;
      }
      return None;
    }

    /** Lines 41-46: the next id goes to the new user; duplicate usernames are not rejected. */
    method CreateUser(insertUser: InsertUser) returns (user: User)
      requires Valid()
      modifies this
      ensures Valid()
      ensures user == User(old(userId), insertUser.username, insertUser.password)
      ensures users == old(users)[user.id := user] && userId == old(userId) + 1
      ensures flamesCalculations == old(flamesCalculations) && flamesId == old(flamesId)
      ensures GetUser(user.id) == Some(user)
    {
      var id := userId;
      userId := userId + 1;
      user := User(id, insertUser.username, insertUser.password);
      users := users[id := user];
    }

    /** Lines 48-59: the record gets the next id and is pushed at the end of the log. */
    method SaveFlamesCalculation(calculation: NewCalculation) returns (flamesCalc: FlamesCalculation)
      requires Valid()
      modifies this
      ensures Valid()
      ensures flamesCalc == WithId(calculation, old(flamesId)) && flamesCalc.id == |old(flamesCalculations)| + 1
      ensures flamesCalculations == old(flamesCalculations) + [flamesCalc] && flamesId == old(flamesId) + 1
      ensures users == old(users) && userId == old(userId)
    {
      var id := flamesId;
      flamesId := flamesId + 1;
      flamesCalc := WithId(calculation, id);
      flamesCalculations := flamesCalculations + [flamesCalc];
    }

    /**
      Lines 61-66: a sorted copy of the log, cut to `limit` entries. The log itself is not
      touched (the function reads the store and changes nothing). The entries come newest
      first, ties oldest first; each is an entry of the log, none twice; and no entry left
      out is more recent than one returned.
    */
    function GetRecentCalculations(limit: nat): (r: seq<FlamesCalculation>)
      reads this
      requires Valid()
      ensures |r| == if limit < |flamesCalculations| then limit else |flamesCalculations|
      ensures r == SortByTimeDesc(flamesCalculations)[..|r|]
      ensures InRecencyOrder(r) && NewestFirst(r)
      ensures multiset(r) <= multiset(flamesCalculations)
      ensures forall x, y :: x in r && y in flamesCalculations && y !in r ==> Before(x, y)
    {
      var sorted := SortByTimeDesc(flamesCalculations);
      var n := if limit < |sorted| then limit else |sorted|;
      assert IdsIncreasing(flamesCalculations);
      SortInRecencyOrder(flamesCalculations);
      RecencyIsNewestFirst(sorted[..n]);
      PrefixOfSorted(sorted, n);
      assert sorted == sorted[..n] + sorted[n..];
      assert forall y :: y in flamesCalculations ==> y in sorted by {
        forall y | y in flamesCalculations ensures y in sorted {
          assert y in multiset(flamesCalculations);
        }
      }
      sorted[..n]
    }
  }

  /** In a sequence in recency order, a prefix comes before everything after it. */
  lemma PrefixOfSorted(s: seq<FlamesCalculation>, n: int)
    requires InRecencyOrder(s) && 0 <= n <= |s|
    ensures InRecencyOrder(s[..n])
    ensures forall x, y :: x in s[..n] && y in s && y !in s[..n] ==> Before(x, y)
  {
    forall x, y | x in s[..n] && y in s && y !in s[..n] ensures Before(x, y) {
      var i :| 0 <= i < n && s[..n][i] == x;
      var j :| 0 <= j < |s| && s[j] == y;
      if j < n {
        assert s[..n][j] == y;
      }
      assert s[i] == x;
    }
  }

  /** An entry saved with a clock reading later than every earlier one heads the sorted log. */
  lemma {:induction false} NewestSaveComesFirst(s: seq<FlamesCalculation>, x: FlamesCalculation)
    requires forall k :: 0 <= k < |s| ==> s[k].timestamp < x.timestamp
    ensures SortByTimeDesc(s + [x]) != [] && SortByTimeDesc(s + [x])[0] == x
  {
    if s == [] {
      assert [] + [x] == [x] && [x][1..] == [];
    } else {
      var u := s + [x];
      assert u[0] == s[0] && u[1..] == s[1..] + [x];
      NewestSaveComesFirst(s[1..], x);
    }
  }

  /** Two entries saved at the same instant come back oldest first. */
  lemma TiesComeOldestFirst(a: FlamesCalculation, b: FlamesCalculation)
    requires a.id == 1 && b.id == 2 && a.timestamp == b.timestamp
    ensures SortByTimeDesc([a, b]) == [a, b]
  {
    assert [a, b][1..] == [b];
    assert SortByTimeDesc([b]) == [b] by {
      assert [b][1..] == [];
    }
  }
}
