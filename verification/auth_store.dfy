/** The client's access-token store: one string cell, empty at start, written
    only through `setAccessToken` and read through a read-only view. */
module AuthStore {

  datatype Store = Store(accessToken: string)

  /** A new store holds the empty string: no token yet. */
  const Initial: Store := Store("")

  /** `setAccessToken`: the cell afterwards holds exactly `token`. */
  function SetAccessToken(store: Store, token: string): (r: Store)
    ensures r.accessToken == token
  {
    Store(token)
  }

  /** The store after a run of `setAccessToken` calls from a given state. */
  function Replay(start: Store, writes: seq<string>): (r: Store)
    decreases |writes|
  {
    if |writes| == 0 then start else SetAccessToken(Replay(start, writes[..|writes| - 1]), writes[|writes| - 1])
  }

  /** The token read back is the last one written, or the empty string when
      nothing was written since the store was created. */
  lemma LastWriteWins(writes: seq<string>)
    ensures Replay(Initial, writes).accessToken == if |writes| == 0 then "" else writes[|writes| - 1]
  {
  }

  /** Replaying two runs one after the other is replaying their concatenation. */
  lemma {:induction false} ReplayConcat(start: Store, a: seq<string>, b: seq<string>)
    ensures Replay(Replay(start, a), b) == Replay(start, a + b)
    decreases |b|
  {
    if |b| > 0 {
      assert (a + b)[..|a + b| - 1] == a + b[..|b| - 1];
      ReplayConcat(start, a, b[..|b| - 1]);
    } else {
      assert a + b == a;
    }
  }

  /** Writing the empty string returns the store to its initial state, whatever
      came before. */
  lemma ClearingRestoresInitial(writes: seq<string>)
    ensures Replay(Initial, writes + [""]) == Initial
  {
    assert (writes + [""])[..|writes|] == writes;
  }
}
