/**
 * The identity resolver: the username -> id dictionary built from the users
 * collection, and the scan that turns a `userId` back into a username.
 */
module Identity {
  import opened Wrappers
  import opened Sequences
  import opened Dicts
  import opened Records

  /** `user_list_dictionary`: username -> id, in insertion order. */
  type IdentityMap = Dict<string, int>

  function Usernames(users: seq<Record>): seq<string>
  {
    seq(|users|, i requires 0 <= i < |users| => users[i].username)
  }

  /**
   * `create_user_list`: the comprehension `{u['username']: u['id'] for u in users}`.
   * Each user record assigns its id to its username, so a repeated username keeps
   * the position of its first record and the id of its last.
   */
  function CreateUserList(users: seq<Record>): IdentityMap
  {
    if users == [] then []
    else
      var n := |users| - 1;
      Put(CreateUserList(users[..n]), users[n].username, users[n].id)
  }

  /** The usernames are the map's keys, each once, in order of first appearance. */
  lemma {:induction false} UserListKeys(users: seq<Record>)
    ensures Keys(CreateUserList(users)) == Distinct(Usernames(users))
    ensures NoDuplicates(Keys(CreateUserList(users)))
  {
    if users != [] {
      var n := |users| - 1;
      assert Usernames(users[..n]) == Usernames(users)[..n];
      UserListKeys(users[..n]);
      PutKeys(CreateUserList(users[..n]), users[n].username, users[n].id);
    }
  }

  /** The map holds one entry per distinct username. */
  lemma UserListSize(users: seq<Record>)
    ensures |CreateUserList(users)| == |ToSet(Usernames(users))|
  {
    UserListKeys(users);
    DistinctCardinality(Usernames(users));
  }

  /** Last write wins: the entry for a username holds the id of its last record. */
  lemma {:induction false} LastWriteWins(users: seq<Record>, i: nat)
    requires i < |users|
    requires forall j :: i < j < |users| ==> users[j].username != users[i].username
    ensures Get(CreateUserList(users), users[i].username) == Some(users[i].id)
  {
    var n := |users| - 1;
    var prefix := users[..n];
    var m := CreateUserList(prefix);
    assert CreateUserList(users) == Put(m, users[n].username, users[n].id);
    GetPut(m, users[n].username, users[n].id, users[i].username);
    if i < n {
      assert prefix[i] == users[i];
      forall j | i < j < n ensures prefix[j].username != prefix[i].username {
        assert prefix[j] == users[j];
      }
      LastWriteWins(prefix, i);
    }
  }

  /** Some record of `users` carries `name`, and it is the last one that does. */
  ghost predicate LastWith(users: seq<Record>, name: string, i: int)
  {
    0 <= i < |users| && users[i].username == name &&
    forall j :: i < j < |users| ==> users[j].username != name
  }

  lemma {:induction false} LastOccurrence(users: seq<Record>, name: string, k: nat)
    requires k < |users| && users[k].username == name
    ensures exists i :: LastWith(users, name, i)
    decreases |users| - k
  {
    if !LastWith(users, name, k) {
      var j :| k < j < |users| && users[j].username == name;
      LastOccurrence(users, name, j);
    }
  }

  /** Every entry pairs a username of `users` with the id of its last record. */
  lemma UserListEntry(users: seq<Record>, e: nat)
    requires e < |CreateUserList(users)|
    ensures exists i :: LastWith(users, CreateUserList(users)[e].0, i) &&
                        users[i].id == CreateUserList(users)[e].1
  {
    var m := CreateUserList(users);
    UserListKeys(users);
    DistinctMembers(Usernames(users));
    var name := m[e].0;
    assert name in Distinct(Usernames(users));
    var k :| 0 <= k < |users| && Usernames(users)[k] == name;
    LastOccurrence(users, name, k);
    var i :| LastWith(users, name, i);
    LastWriteWins(users, i);
    GetEntry(m, e);
  }

  /**
   * `[username for username, id in d.items() if id == userId][0]`: the first
   * username in insertion order whose id is `userId`. Python raises IndexError
   * when there is none; here that is `None`.
   */
  function ReverseLookup(m: IdentityMap, userId: int): (r: Option<string>)
    ensures r.None? <==> forall i :: 0 <= i < |m| ==> m[i].1 != userId
    ensures r.Some? ==> exists i :: 0 <= i < |m| && m[i] == (r.value, userId) &&
                                    forall j :: 0 <= j < i ==> m[j].1 != userId
  {
    if m == [] then None
    else if m[0].1 == userId then Some(m[0].0)
    else
      var r := ReverseLookup(m[1..], userId);
      assert r.Some? ==> exists i :: 1 <= i < |m| && m[i] == (r.value, userId) &&
                                     forall j :: 0 <= j < i ==> m[j].1 != userId by {
        if r.Some? {
          var i :| 0 <= i < |m[1..]| && m[1..][i] == (r.value, userId) &&
                   forall j :: 0 <= j < i ==> m[1..][j].1 != userId;
          assert forall j :: 0 <= j < i + 1 ==> m[j].1 != userId by {
            forall j | 0 <= j < i + 1 ensures m[j].1 != userId {
              if j > 0 { assert m[j] == m[1..][j - 1]; }
            }
          }
        }
      }
      r
  }

  /** Every record's `userId` resolves to some username. */
  ghost predicate AllResolve(m: IdentityMap, records: seq<Record>)
  {
    forall i :: 0 <= i < |records| ==> ReverseLookup(m, records[i].userId).Some?
  }

  /** Every record resolves exactly when the earlier ones do and the last one does. */
  lemma AllResolvePrefix(m: IdentityMap, records: seq<Record>)
    requires records != []
    ensures AllResolve(m, records) <==>
            AllResolve(m, records[..|records| - 1]) &&
            ReverseLookup(m, records[|records| - 1].userId).Some?
  {
    var n := |records| - 1;
    assert forall i :: 0 <= i < n ==> records[..n][i] == records[i];
  }

  /**
   * A `userId` resolves against the map built from `users` exactly when some
   * user record with that id is the last record of its username.
   */
  lemma ResolvableIds(users: seq<Record>, userId: int)
    ensures ReverseLookup(CreateUserList(users), userId).Some? <==>
            exists i :: 0 <= i < |users| && LastWith(users, users[i].username, i) && users[i].id == userId
  {
    var m := CreateUserList(users);
    if ReverseLookup(m, userId).Some? {
      var e :| 0 <= e < |m| && m[e].1 == userId;
      UserListEntry(users, e);
      var i :| LastWith(users, m[e].0, i) && users[i].id == m[e].1;
      assert users[i].username == m[e].0;
    }
    if exists i :: 0 <= i < |users| && LastWith(users, users[i].username, i) && users[i].id == userId {
      var i :| 0 <= i < |users| && LastWith(users, users[i].username, i) && users[i].id == userId;
      LastWriteWins(users, i);
      var e := GetIndex(m, users[i].username);
      assert m[e].1 == userId;
    }
  }
}
