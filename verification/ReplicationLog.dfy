/** The bounded replication log (internal/replication/manager.go). */
module ReplicationLog {
  const LOG_LIMIT := 10000
  const LOG_CUT := 5000

  datatype Entry = Entry(at: int, shard: int, operation: string, key: string, success: bool)

  function Append(entries: seq<Entry>, e: Entry): seq<Entry> {
    var longer := entries + [e];
    if |longer| > LOG_LIMIT then longer[LOG_CUT..] else longer
  }

  function AppendAll(entries: seq<Entry>, history: seq<Entry>): seq<Entry> {
    if history == [] then entries
    else Append(AppendAll(entries, history[..|history| - 1]), history[|history| - 1])
  }

  function Last<T>(s: seq<T>, n: nat): seq<T>
    requires n <= |s|
  {
    s[|s| - n..]
  }

  /** The length of the log after n entries were appended to an empty one. */
  function Retained(n: nat): (r: nat)
    ensures r <= n && r <= LOG_LIMIT
    ensures r >= if n <= LOG_CUT + 1 then n else LOG_CUT + 1
  {
    if n == 0 then 0
    else
      var longer := Retained(n - 1) + 1;
      if longer > LOG_LIMIT then longer - LOG_CUT else longer
  }

  lemma NextRemainder(m: nat)
    ensures (m + 1) % LOG_CUT == if m % LOG_CUT == LOG_CUT - 1 then 0 else m % LOG_CUT + 1
  {
  }

  /** That length in closed form. */
  lemma {:induction false} RetainedIs(n: nat)
    ensures Retained(n) == if n <= 10000 then n else 5001 + (n - 10001) % 5000
  {
    if n > 0 {
      RetainedIs(n - 1);
      if n > LOG_LIMIT + 1 {
        NextRemainder(n - LOG_LIMIT - 2);
      }
    }
  }

  /** Appending one entry to a suffix of the history gives a suffix of the longer history. */
  lemma AppendToSuffix(history: seq<Entry>, r: nat, r': nat)
    requires r < |history| && r' == if r + 1 > LOG_LIMIT then r + 1 - LOG_CUT else r + 1
    ensures Append(Last(history[..|history| - 1], r), history[|history| - 1]) == Last(history, r')
  {
    assert Last(history[..|history| - 1], r) + [history[|history| - 1]] == Last(history, r + 1);
  }

  lemma {:induction false} LogIsSuffix(history: seq<Entry>)
    ensures AppendAll([], history) == Last(history, Retained(|history|))
  {
    if history == [] {
      assert Last(history, 0) == [];
    } else {
      var n := |history| - 1;
      LogIsSuffix(history[..n]);
      assert AppendAll([], history) == Append(AppendAll([], history[..n]), history[n]);
      AppendToSuffix(history, Retained(n), Retained(n + 1));
    }
  }

  /** The log is exactly the most recent Retained(n) of the n entries ever appended. */
  lemma LogIsRecentSuffix(history: seq<Entry>)
    ensures Retained(|history|) <= |history|
    ensures AppendAll([], history) == Last(history, Retained(|history|))
    ensures |AppendAll([], history)| <= 10000
    ensures |AppendAll([], history)| >= if |history| <= 5001 then |history| else 5001
  {
    LogIsSuffix(history);
  }

  class Log {
    var entries: seq<Entry>

    constructor ()
      ensures entries == []
    {
      entries := [];
    }

    method LogReplication(at: int, shard: int, operation: string, key: string, success: bool)
      modifies this
      ensures entries == Append(old(entries), Entry(at, shard, operation, key, success))
    {
      entries := entries + [Entry(at, shard, operation, key, success)];
      if |entries| > LOG_LIMIT {
        entries := entries[LOG_CUT..];
      }
    }

    /** The last limit entries in order; a limit that is not positive, or too large, means all of them. */
    method GetReplicationLog(limit: int) returns (result: seq<Entry>)
      ensures result == Last(entries, if 0 < limit <= |entries| then limit else |entries|)
    {
      var count := limit;
      if limit <= 0 || limit > |entries| {
        count := |entries|;
      }
      var buffer := new Entry[count](i requires 0 <= i < count && count <= |entries| reads this =>
        entries[|entries| - count + i]);
      result := buffer[..];
    }
  }
}
