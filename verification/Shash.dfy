/** The string hash that holds subsystems and fans.

    It accepts duplicate keys and promises no iteration order: a node is inserted at an
    arbitrary place. `Lists` says which nodes it contains, each once.
 */
module Shash {

  datatype Node<+T> = Node(name: string, data: T)

  type Shash<+T> = seq<Node<T>>

  /** The nodes are exactly the elements of `x`, each once, in any order. */
  ghost predicate Lists<T>(nodes: Shash<T>, x: set<Node<T>>) {
    if |nodes| == 0 then x == {} else nodes[0] in x && Lists(nodes[1..], x - {nodes[0]})
  }

  lemma EmptyLists<T>()
    ensures Lists<T>([], {})
  {
  }

  lemma EmptyListing<T>(x: set<Node<T>>)
    requires Lists([], x)
    ensures x == {}
  {
  }

  ghost predicate UniqueKeys<T>(x: set<Node<T>>) {
    forall n, m :: n in x && m in x && n.name == m.name ==> n == m
  }

  lemma {:induction false} ListsAt<T>(nodes: Shash<T>, x: set<Node<T>>, i: nat)
    requires Lists(nodes, x) && i < |nodes|
    ensures nodes[i] in x
  {
    if i > 0 {
      ListsAt(nodes[1..], x - {nodes[0]}, i - 1);
    }
  }

  lemma {:induction false} ListsHas<T>(nodes: Shash<T>, x: set<Node<T>>, n: Node<T>) returns (i: nat)
    requires Lists(nodes, x) && n in x
    ensures i < |nodes| && nodes[i] == n
  {
    if nodes[0] == n {
      i := 0;
    } else {
      var j := ListsHas(nodes[1..], x - {nodes[0]}, n);
      i := j + 1;
    }
  }

  lemma {:induction false} ListsDistinct<T>(nodes: Shash<T>, x: set<Node<T>>, i: nat, j: nat)
    requires Lists(nodes, x) && i < j < |nodes|
    ensures nodes[i] != nodes[j]
  {
    if i == 0 {
      ListsAt(nodes[1..], x - {nodes[0]}, j - 1);
    } else {
      ListsDistinct(nodes[1..], x - {nodes[0]}, i - 1, j - 1);
    }
  }

  /** shash_add at the place the table happens to choose. */
  function Inserted<T>(nodes: Shash<T>, p: nat, n: Node<T>): Shash<T>
    requires p <= |nodes|
  {
    nodes[..p] + [n] + nodes[p..]
  }

  lemma {:induction false} InsertedLists<T>(nodes: Shash<T>, x: set<Node<T>>, p: nat, n: Node<T>)
    requires Lists(nodes, x) && n !in x && p <= |nodes|
    ensures Lists(Inserted(nodes, p, n), x + {n})
  {
    var r := Inserted(nodes, p, n);
    if p == 0 {
      assert r[1..] == nodes;
      assert x + {n} - {n} == x;
    } else {
      InsertedLists(nodes[1..], x - {nodes[0]}, p - 1, n);
      assert r[1..] == Inserted(nodes[1..], p - 1, n);
      assert x + {n} - {nodes[0]} == x - {nodes[0]} + {n};
    }
  }

  /** shash_find: position of the first node with this key, or -1. */
  function Find<T>(nodes: Shash<T>, name: string): (i: int)
    ensures -1 <= i < |nodes|
    ensures i >= 0 ==> nodes[i].name == name
  {
    if |nodes| == 0 then -1
    else if nodes[0].name == name then 0
    else
      var i := Find(nodes[1..], name);
      if i < 0 then -1 else i + 1
  }

  /** With unique keys, looking up the key of a listed node finds that node. */
  lemma {:induction false} FindListed<T>(nodes: Shash<T>, x: set<Node<T>>, n: Node<T>)
    requires Lists(nodes, x) && n in x
    requires forall m :: m in x && m.name == n.name ==> m == n
    ensures Find(nodes, n.name) >= 0 && nodes[Find(nodes, n.name)] == n
  {
    if nodes[0].name != n.name {
      FindListed(nodes[1..], x - {nodes[0]}, n);
    }
  }

  /** A key that no listed node has is not found. */
  lemma {:induction false} FindMissing<T>(nodes: Shash<T>, x: set<Node<T>>, name: string)
    requires Lists(nodes, x)
    ensures Find(nodes, name) < 0 <==> forall n :: n in x ==> n.name != name
  {
    if |nodes| > 0 && nodes[0].name != name {
      FindMissing(nodes[1..], x - {nodes[0]}, name);
    }
  }

  /** shash_delete */
  function Deleted<T>(nodes: Shash<T>, i: nat): Shash<T>
    requires i < |nodes|
  {
    nodes[..i] + nodes[i + 1..]
  }

  lemma {:induction false} DeletedLists<T>(nodes: Shash<T>, x: set<Node<T>>, i: nat)
    requires Lists(nodes, x) && i < |nodes|
    ensures Lists(Deleted(nodes, i), x - {nodes[i]})
  {
    var r := Deleted(nodes, i);
    if i == 0 {
      assert r == nodes[1..];
    } else {
      ListsDistinct(nodes, x, 0, i);
      DeletedLists(nodes[1..], x - {nodes[0]}, i - 1);
      assert r[1..] == Deleted(nodes[1..], i - 1);
      assert x - {nodes[i]} - {nodes[0]} == x - {nodes[0]} - {nodes[i]};
      ListsAt(nodes, x, 0);
    }
  }

  // ----- deleting by key -----

  lemma {:induction false} SomeListing<T>(x: set<Node<T>>) returns (nodes: Shash<T>)
    ensures Lists(nodes, x)
  {
    if x == {} {
      nodes := [];
    } else {
      nodes := ListingFrom(x, var n :| n in x; n);
    }
  }

  /** A listing that starts with this node. */
  lemma ListingFrom<T>(x: set<Node<T>>, n: Node<T>) returns (nodes: Shash<T>)
    requires n in x
    ensures Lists(nodes, x) && nodes[0] == n
    decreases x, 0
  {
    var rest := SomeListing(x - {n});
    nodes := [n] + rest;
    assert nodes[1..] == rest;
  }

  /** Looking up the key of a listed node finds that node in every iteration order exactly when
      no other node has the key. */
  lemma FindsOwnNodeExactly<T>(x: set<Node<T>>, n: Node<T>)
    requires n in x
    ensures (forall m :: m in x && m.name == n.name ==> m == n)
            <==>
            forall nodes :: Lists(nodes, x) ==> Find(nodes, n.name) >= 0 && nodes[Find(nodes, n.name)] == n
  {
    if forall m :: m in x && m.name == n.name ==> m == n {
      forall nodes | Lists(nodes, x) ensures Find(nodes, n.name) >= 0 && nodes[Find(nodes, n.name)] == n {
        FindListed(nodes, x, n);
      }
    } else {
      var m :| m in x && m.name == n.name && m != n;
      var nodes := ListingFrom(x, m);
      assert Lists(nodes, x) && Find(nodes, n.name) == 0;
    }
  }

  /** shash_delete of what shash_find returns, for each node of `doomed`. */
  function DeletedByKey<T>(nodes: Shash<T>, doomed: Shash<T>): Shash<T>
    decreases |doomed|
  {
    if |doomed| == 0 then nodes
    else
      var i := Find(nodes, doomed[0].name);
      DeletedByKey(if i >= 0 then Deleted(nodes, i) else nodes, doomed[1..])
  }

  lemma NoneDeleted<T>(nodes: Shash<T>)
    ensures DeletedByKey(nodes, []) == nodes
  {
  }

  ghost function WithKey<T>(x: set<Node<T>>, name: string): set<Node<T>> {
    set n | n in x && n.name == name
  }

  /** The node found for `d` goes from `e`, and `d` from `doomed`: of every key, as many are left in
      one set as in the other. */
  lemma KeysStayBalanced<T>(e: set<Node<T>>, doomed: set<Node<T>>, g: Node<T>, d: Node<T>, name: string)
    requires g in e && d in doomed && g.name == d.name
    requires |WithKey(e, name)| == |WithKey(doomed, name)|
    ensures |WithKey(e - {g}, name)| == |WithKey(doomed - {d}, name)|
  {
    if name == g.name {
      assert WithKey(e - {g}, name) == WithKey(e, name) - {g};
      assert WithKey(doomed - {d}, name) == WithKey(doomed, name) - {d};
    } else {
      assert WithKey(e - {g}, name) == WithKey(e, name);
      assert WithKey(doomed - {d}, name) == WithKey(doomed, name);
    }
  }

  /** The index holds `kept` and, of every doomed key, as many other nodes as are still doomed. */
  lemma {:induction false} DeletesTheDoomed<T>(nodes: Shash<T>, kept: set<Node<T>>, e: set<Node<T>>, list: Shash<T>, doomed: set<Node<T>>)
    requires Lists(nodes, kept + e) && kept !! e && Lists(list, doomed)
    requires forall n, m :: n in doomed && m in kept ==> n.name != m.name
    requires forall name :: |WithKey(e, name)| == |WithKey(doomed, name)|
    ensures Lists(DeletedByKey(nodes, list), kept)
    decreases |list|
  {
    if |list| == 0 {
      forall name ensures WithKey(e, name) == {} {
        assert WithKey(doomed, name) == {};
      }
      assert forall n :: n in e ==> n in WithKey(e, n.name);
      assert kept + e == kept;
    } else {
      var d := list[0];
      assert d in WithKey(doomed, d.name);
      assert |WithKey(e, d.name)| > 0;
      var other :| other in WithKey(e, d.name);
      FindMissing(nodes, kept + e, d.name);
      var i := Find(nodes, d.name);
      ListsAt(nodes, kept + e, i);
      var g := nodes[i];
      DeletedLists(nodes, kept + e, i);
      assert kept + e - {g} == kept + (e - {g});
      forall name ensures |WithKey(e - {g}, name)| == |WithKey(doomed - {d}, name)| {
        KeysStayBalanced(e, doomed, g, d, name);
      }
      DeletesTheDoomed(Deleted(nodes, i), kept, e - {g}, list[1..], doomed - {d});
    }
  }

  lemma {:induction false} DeletesOnly<T>(nodes: Shash<T>, list: Shash<T>, m: Node<T>)
    requires m in DeletedByKey(nodes, list)
    ensures m in nodes
    decreases |list|
  {
    if |list| > 0 {
      var i := Find(nodes, list[0].name);
      DeletesOnly(if i >= 0 then Deleted(nodes, i) else nodes, list[1..], m);
    }
  }

  /** A kept node that shares its key with a doomed one can go in its place. */
  lemma DeletesTheOther<T>(x: set<Node<T>>, doomed: set<Node<T>>, n: Node<T>, m: Node<T>) returns (nodes: Shash<T>, list: Shash<T>)
    requires doomed <= x && n in doomed && m in x - doomed && n.name == m.name
    ensures Lists(nodes, x) && Lists(list, doomed)
    ensures m !in DeletedByKey(nodes, list)
  {
    nodes := ListingFrom(x, m);
    list := ListingFrom(doomed, n);
    assert Deleted(nodes, 0) == nodes[1..];
    if m in DeletedByKey(nodes, list) {
      DeletesOnly(nodes[1..], list[1..], m);
      var j :| 0 <= j < |nodes[1..]| && nodes[1..][j] == m;
      ListsDistinct(nodes, x, 0, j + 1);
    }
  }

  /** The sweep deletes the doomed nodes by key. It leaves exactly the other nodes, whatever the
      iteration orders, exactly when no doomed node shares its key with a kept one; otherwise it
      can delete a live record's node and leave that of a freed record in the index. */
  lemma DeletesByKeyExactly<T>(x: set<Node<T>>, doomed: set<Node<T>>)
    requires doomed <= x
    ensures (forall n, m :: n in doomed && m in x - doomed ==> n.name != m.name)
            <==>
            forall nodes, list :: Lists(nodes, x) && Lists(list, doomed) ==> Lists(DeletedByKey(nodes, list), x - doomed)
  {
    if forall n, m :: n in doomed && m in x - doomed ==> n.name != m.name {
      forall nodes, list | Lists(nodes, x) && Lists(list, doomed) ensures Lists(DeletedByKey(nodes, list), x - doomed) {
        assert x - doomed + doomed == x;
        DeletesTheDoomed(nodes, x - doomed, doomed, list, doomed);
      }
    } else {
      var n, m :| n in doomed && m in x - doomed && n.name == m.name;
      var nodes, list := DeletesTheOther(x, doomed, n, m);
      if Lists(DeletedByKey(nodes, list), x - doomed) {
        var i := ListsHas(DeletedByKey(nodes, list), x - doomed, m);
      }
    }
  }
}
