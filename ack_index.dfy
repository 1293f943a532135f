/**
 * The persisted index of not-yet-acknowledged items: connection id to the
 * set of items handed out on that connection and not acknowledged since.
 * Recovery walks the index in ascending id order, as the integer-keyed
 * BTree that stores it does.
 */
module AckIndex {

  /** A non-empty set of ids has a member to pick. */
  lemma HasMember(ids: set<int>)
    requires ids != {}
    ensures exists x :: x in ids
  {
    if forall x: int :: x !in ids {
      assert false;
    }
  }

  /** The least id of a non-empty set of ids. */
  ghost function MinKey(ids: set<int>): (m: int)
    requires ids != {}
    ensures m in ids && forall j :: j in ids ==> m <= j
  {
    HasMember(ids);
    var x :| x in ids;
    if forall j :: j in ids ==> x <= j then x
    else
      var j :| j in ids && j < x;
      assert j in ids - {x};
      var m := MinKey(ids - {x});
      assert m <= j;
      assert forall i :: i in ids ==> i == x || i in ids - {x};
      m
  }

  /**
   * Every item still waiting for acknowledgement, over all registered
   * connections, visited in ascending id order.
   */
  ghost function Pending<Item>(index: map<int, set<Item>>): multiset<Item>
    decreases index.Keys
  {
    if index.Keys == {} then multiset{}
    else
      var k := MinKey(index.Keys);
      multiset(index[k]) + Pending(index - {k})
  }

  /** The items registered under `k`, none when `k` is not registered. */
  function Registered<Item>(index: map<int, set<Item>>, k: int): set<Item> {
    if k in index then index[k] else {}
  }

  /**
   * Replacing the set registered under one id changes the pending items by
   * exactly the old and the new set, whatever id it is.
   */
  lemma {:induction false} PendingUpdate<Item>(index: map<int, set<Item>>, k: int, s: set<Item>)
    ensures Pending(index[k := s]) + multiset(Registered(index, k)) == Pending(index) + multiset(s)
    decreases index.Keys
  {
    var index' := index[k := s];
    assert index'.Keys == index.Keys + {k};
    var j := MinKey(index'.Keys);
    if j == k {
      assert index' - {k} == index - {k};
      if k in index {
        assert MinKey(index.Keys) == k;
      } else {
        assert index - {k} == index;
      }
    } else {
      assert j in index;
      assert MinKey(index.Keys) == j;
      assert index' - {j} == (index - {j})[k := s];
      assert Registered(index - {j}, k) == Registered(index, k);
      PendingUpdate(index - {j}, k, s);
      var head, rest' := multiset(index[j]), Pending((index - {j})[k := s]);
      calc {
        Pending(index') + multiset(Registered(index, k));
        (head + rest') + multiset(Registered(index, k));
        head + (rest' + multiset(Registered(index - {j}, k)));
        head + (Pending(index - {j}) + multiset(s));
        (head + Pending(index - {j})) + multiset(s);
        Pending(index) + multiset(s);
      }
    }
  }

  /** An index whose sets are all empty holds nothing pending. */
  lemma {:induction false} PendingOfEmptySets<Item>(index: map<int, set<Item>>)
    requires forall k :: k in index ==> index[k] == {}
    ensures Pending(index) == multiset{}
    decreases index.Keys
  {
    if index.Keys != {} {
      PendingOfEmptySets(index - {MinKey(index.Keys)});
    }
  }

  /**
   * Copies the members of a set into a list before the set is changed; the
   * order of the list is left open.
   */
  method ListKeys<Item(==)>(s: set<Item>) returns (keys: seq<Item>)
    ensures multiset(keys) == multiset(s)
  {
    keys := [];
    var rest := s;
    while rest != {}
      invariant rest <= s
      invariant multiset(keys) + multiset(rest) == multiset(s)
      decreases rest
    {
      var x :| x in rest;
      keys := keys + [x];
      rest := rest - {x};
    }
  }
}
