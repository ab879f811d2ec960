/** The server's `users` dictionary: username -> client connection.

    A Python dict remembers insertion order, and the `server:who` reply
    lists the keys in that order, so the registry is an ordered list of
    entries; `Lookup` is its dictionary view. */
module Users {

  import opened Wrappers

  /** An opaque handle for one client socket. */
  type ConnId = nat

  datatype Entry = Entry(name: string, conn: ConnId)

  type Registry = seq<Entry>

  /** `list(users.keys())` */
  function Names(users: Registry): (ns: seq<string>)
    ensures |ns| == |users|
    ensures forall i :: 0 <= i < |users| ==> ns[i] == users[i].name
  {
    if users == [] then [] else [users[0].name] + Names(users[1..])
  }

  /** No name is bound twice (a dictionary has each key once). */
  predicate Distinct(users: Registry)
  {
    forall i, j :: 0 <= i < j < |users| ==> users[i].name != users[j].name
  }

  /** `users.get(name)` */
  function Lookup(users: Registry, name: string): (r: Option<ConnId>)
    ensures r.None? <==> name !in Names(users)
  {
    if users == [] then None
    else if users[0].name == name then Some(users[0].conn)
    else Lookup(users[1..], name)
  }

  /** `users[name] = conn`: a present key keeps its place and gets the new
      connection, an absent key is appended (see `PutNames`). */
  function Put(users: Registry, name: string, conn: ConnId): (r: Registry)
    ensures Lookup(r, name) == Some(conn)
    ensures forall n :: n != name ==> Lookup(r, n) == Lookup(users, n)
    ensures |r| <= |users| + 1
  {
    if users == [] then [Entry(name, conn)]
    else if users[0].name == name then [Entry(name, conn)] + users[1..]
    else
      var rest := Put(users[1..], name, conn);
      var r := [users[0]] + rest;
      assert r[1..] == rest;
      r
  }

  /** `del users[name]` (guarded by `name in users` at its only call site;
      removing an absent name changes nothing). */
  function Remove(users: Registry, name: string): (r: Registry)
    ensures Lookup(r, name) == None
    ensures forall n :: n != name ==> Lookup(r, n) == Lookup(users, n)
    ensures name !in Names(users) ==> r == users
    ensures |r| <= |users|
  {
    if users == [] then []
    else if users[0].name == name then Remove(users[1..], name)
    else [users[0]] + Remove(users[1..], name)
  }

  // ---------------------------------------------------------------------
  // Lemmas

  lemma NamesCons(e: Entry, rest: Registry)
    ensures Names([e] + rest) == [e.name] + Names(rest)
  {
    assert ([e] + rest)[1..] == rest;
  }

  /** Where `Put` leaves the key: in its old place, or appended last. */
  lemma {:induction false} PutNames(users: Registry, name: string, conn: ConnId)
    ensures name in Names(users) ==> Names(Put(users, name, conn)) == Names(users)
    ensures name !in Names(users) ==> Names(Put(users, name, conn)) == Names(users) + [name]
  {
    if users == [] {
      NamesCons(Entry(name, conn), []);
    } else if users[0].name == name {
      NamesCons(Entry(name, conn), users[1..]);
      NamesCons(users[0], users[1..]);
      assert users == [users[0]] + users[1..];
    } else {
      var tail := users[1..];
      var rest := Put(tail, name, conn);
      PutNames(tail, name, conn);
      NamesCons(users[0], rest);
      NamesCons(users[0], tail);
      assert users == [users[0]] + tail;
      assert Names(users) == [users[0].name] + Names(tail);
      assert name in Names(users) <==> name in Names(tail);
      if name !in Names(users) {
        assert Names(users) + [name] == [users[0].name] + (Names(tail) + [name]);
      }
    }
  }

  /** Assigning a key keeps every key unique. */
  lemma PutKeepsDistinct(users: Registry, name: string, conn: ConnId)
    requires Distinct(users)
    ensures Distinct(Put(users, name, conn))
  {
    var r := Put(users, name, conn);
    PutNames(users, name, conn);
    forall i, j | 0 <= i < j < |r|
      ensures r[i].name != r[j].name
    {
      assert Names(r)[i] == r[i].name && Names(r)[j] == r[j].name;
      if j == |users| {
        assert name !in Names(users);
        assert Names(users)[i] == users[i].name;
      } else {
        assert Names(users)[i] == users[i].name && Names(users)[j] == users[j].name;
      }
    }
  }

  /** Deleting a key keeps every key unique and keeps the others in order. */
  lemma {:induction false} RemoveKeepsDistinct(users: Registry, name: string)
    requires Distinct(users)
    ensures Distinct(Remove(users, name))
  {
    if users != [] {
      RemoveKeepsDistinct(users[1..], name);
      var rest := Remove(users[1..], name);
      if users[0].name != name {
        var head := users[0].name;
        assert head !in Names(users[1..]) by {
          forall i | 0 <= i < |users| - 1
            ensures Names(users[1..])[i] != head
          {
            assert users[1..][i] == users[i + 1];
          }
        }
        assert Lookup(rest, head) == Lookup(users[1..], head);
        forall i | 0 <= i < |rest|
          ensures rest[i].name != head
        {
          assert Names(rest)[i] == rest[i].name;
        }
      }
    }
  }

  /** In a registry without repeated names, the dictionary view names the
      connection of the one entry carrying that name. */
  lemma {:induction false} LookupAt(users: Registry, k: nat)
    requires Distinct(users)
    requires k < |users|
    ensures Lookup(users, users[k].name) == Some(users[k].conn)
  {
    if k > 0 {
      assert users[0].name != users[k].name;
      LookupAt(users[1..], k - 1);
    }
  }

  lemma RemoveAbsent(users: Registry, name: string)
    requires forall i :: 0 <= i < |users| ==> users[i].name != name
    ensures Remove(users, name) == users
  {
    assert name !in Names(users);
  }

  lemma DistinctTail(users: Registry)
    requires Distinct(users) && users != []
    ensures Distinct(users[1..])
  {
  }

  lemma RemoveCons(users: Registry, name: string)
    requires users != [] && users[0].name != name
    ensures Remove(users, name) == [users[0]] + Remove(users[1..], name)
  {
  }

  /** Deleting a present key removes exactly its entry and keeps the order
      of the rest. */
  lemma {:induction false} RemoveDeletesOneEntry(users: Registry, k: nat)
    requires Distinct(users)
    requires k < |users|
    ensures Remove(users, users[k].name) == users[..k] + users[k + 1..]
  {
    var name := users[k].name;
    var tail := users[1..];
    if k == 0 {
      forall i | 0 <= i < |tail|
        ensures tail[i].name != name
      {
        assert tail[i] == users[i + 1];
      }
      RemoveAbsent(tail, name);
      assert users[..0] + users[1..] == tail;
    } else {
      assert users[0].name != name;
      DistinctTail(users);
      RemoveCons(users, name);
      assert tail[k - 1] == users[k];
      RemoveDeletesOneEntry(tail, k - 1);
      assert users[..k] + users[k + 1..] == [users[0]] + (tail[..k - 1] + tail[k..]);
    }
  }

  /** Binding a fresh name and then deleting it gives back the registry
      it started from. */
  lemma {:induction false} RemoveUndoesPut(users: Registry, name: string, conn: ConnId)
    requires name !in Names(users)
    ensures Remove(Put(users, name, conn), name) == users
  {
    if users != [] {
      var rest := Put(users[1..], name, conn);
      assert users[0].name != name;
      assert Put(users, name, conn) == [users[0]] + rest;
      RemoveCons([users[0]] + rest, name);
      assert ([users[0]] + rest)[1..] == rest;
      RemoveUndoesPut(users[1..], name, conn);
    }
  }
}
