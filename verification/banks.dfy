/** The bank registry (createBank): an ordered roster of clients, unique by name. */
module Banks {
  import opened Outcomes
  import opened Clients

  /** The roster holds a client with name `n` (the source's `clients.some(...)`). */
  predicate HasName(roster: seq<Client>, n: string)
  {
    exists i :: 0 <= i < |roster| && roster[i].name == n
  }

  /** No two roster entries share a name. */
  predicate UniqueNames(roster: seq<Client>)
  {
    forall i, j :: 0 <= i < j < |roster| ==> roster[i].name != roster[j].name
  }

  /** The roster with every entry named `n` dropped (the source's `clients.filter(...)`). */
  function WithoutName(roster: seq<Client>, n: string): (r: seq<Client>)
    ensures forall i :: 0 <= i < |r| ==> r[i] in roster && r[i].name != n
    ensures forall i :: 0 <= i < |roster| && roster[i].name != n ==> roster[i] in r
    ensures |r| <= |roster|
  {
    if roster == [] then []
    else (if roster[0].name == n then [] else [roster[0]]) + WithoutName(roster[1..], n)
  }

  /** Filtering distributes over concatenation: the entries that remain keep
      their relative order. */
  lemma {:induction false} WithoutNameAppend(a: seq<Client>, b: seq<Client>, n: string)
    ensures WithoutName(a + b, n) == WithoutName(a, n) + WithoutName(b, n)
  {
    if a == [] {
      assert a + b == b;
    } else {
      assert (a + b)[0] == a[0];
      assert (a + b)[1..] == a[1..] + b;
      WithoutNameAppend(a[1..], b, n);
    }
  }

  /** Removing an absent name leaves the roster as it is. */
  lemma {:induction false} WithoutAbsentName(roster: seq<Client>, n: string)
    requires !HasName(roster, n)
    ensures WithoutName(roster, n) == roster
  {
    if roster != [] {
      assert !HasName(roster[1..], n) by {
        forall i | 0 <= i < |roster[1..]| ensures roster[1..][i].name != n {
          assert roster[1..][i] == roster[i + 1];
        }
      }
      WithoutAbsentName(roster[1..], n);
    }
  }

  /** Filtering keeps the names unique, and no entry of the removed name is left. */
  lemma {:induction false} WithoutNameKeepsUnique(roster: seq<Client>, n: string)
    requires UniqueNames(roster)
    ensures UniqueNames(WithoutName(roster, n)) && !HasName(WithoutName(roster, n), n)
  {
    var r := WithoutName(roster, n);
    if roster != [] {
      var tail := WithoutName(roster[1..], n);
      WithoutNameKeepsUnique(roster[1..], n);
      if roster[0].name != n {
        assert r == [roster[0]] + tail;
        forall j | 0 <= j < |tail| ensures tail[j].name != roster[0].name {
          assert tail[j] in tail;
          var i :| 0 <= i < |roster[1..]| && roster[1..][i] == tail[j];
          assert roster[i + 1] == tail[j];
        }
      }
    }
    assert !HasName(r, n) by {
      forall i | 0 <= i < |r| ensures r[i].name != n {
        assert r[i] in r;
      }
    }
  }

  /** In a roster with unique names, removing a present name drops exactly one entry. */
  lemma {:induction false} WithoutNameDropsOne(roster: seq<Client>, n: string)
    requires UniqueNames(roster) && HasName(roster, n)
    ensures |WithoutName(roster, n)| == |roster| - 1
  {
    if roster[0].name == n {
      assert !HasName(roster[1..], n) by {
        forall i | 0 <= i < |roster[1..]| ensures roster[1..][i].name != n {
          assert roster[1..][i] == roster[i + 1];
        }
      }
      WithoutAbsentName(roster[1..], n);
    } else {
      var i :| 0 <= i < |roster| && roster[i].name == n;
      assert roster[1..][i - 1].name == n;
      WithoutNameDropsOne(roster[1..], n);
    }
  }

  /** Appending a client whose name is new keeps the names unique, and the name
      is then present, so a second addClient of that name is refused until the
      name is removed. */
  lemma AppendKeepsUnique(roster: seq<Client>, c: Client)
    requires !HasName(roster, c.name)
    ensures UniqueNames(roster + [c]) <==> UniqueNames(roster)
    ensures HasName(roster + [c], c.name)
  {
    var r := roster + [c];
    assert r[|roster|] == c;
    if UniqueNames(r) {
      forall i, j | 0 <= i < j < |roster| ensures roster[i].name != roster[j].name {
        assert r[i] == roster[i] && r[j] == roster[j];
      }
    }
  }

  class Bank {
    const bankName: string
    var clients: seq<Client>

    /** createBank(bankName, clients): the initial roster is taken as given. */
    constructor (bankName: string, clients: seq<Client>)
      ensures this.bankName == bankName && this.clients == clients
    {
      this.bankName := bankName;
      this.clients := clients;
    }

    /** addClient: refuses an invalid candidate or a name already on the roster,
        otherwise appends the candidate at the end. */
    method AddClient(newClient: Client?) returns (r: Outcome)
      modifies this
      ensures !ValidateClient(newClient) ==> r == Fail(InvalidClient) && clients == old(clients)
      ensures ValidateClient(newClient) && HasName(old(clients), newClient.name) ==>
                r == Fail(DuplicateClient) && clients == old(clients)
      ensures ValidateClient(newClient) && !HasName(old(clients), newClient.name) ==>
                r == Pass && clients == old(clients) + [newClient]
      ensures UniqueNames(old(clients)) ==> UniqueNames(clients)
    {
      if !ValidateClient(newClient) {
        return Fail(InvalidClient);
      }
      if HasName(clients, newClient.name) {
        return Fail(DuplicateClient);
      }
      AppendKeepsUnique(clients, newClient);
      clients := clients + [newClient];
      return Pass;
    }

    /** removeClient: refuses a name not on the roster, otherwise drops every
        entry with that name and keeps the order of the rest. */
    method RemoveClient(clientToRemove: Client) returns (r: Outcome)
      modifies this
      ensures HasName(old(clients), clientToRemove.name) ==>
                r == Pass && clients == WithoutName(old(clients), clientToRemove.name)
      ensures !HasName(old(clients), clientToRemove.name) ==>
                r == Fail(MissingClient) && clients == old(clients)
      ensures UniqueNames(old(clients)) ==> UniqueNames(clients)
    {
      if HasName(clients, clientToRemove.name) {
        if UniqueNames(clients) {
          WithoutNameKeepsUnique(clients, clientToRemove.name);
        }
        clients := WithoutName(clients, clientToRemove.name);
        return Pass;
      }
      return Fail(MissingClient);
    }
  }
}
