/** The server's singly linked list of threads, changed in place: insertion at the head, and the
    join pass that removes and frees the nodes it could join while walking the list. */
module ThreadLists {
  class ThreadNode {
    const threadId: nat
    var next: ThreadNode?

    constructor (threadId: nat, next: ThreadNode?)
      ensures this.threadId == threadId && this.next == next
    {
      this.threadId, this.next := threadId, next;
    }
  }

  /** Of the first n nodes, those whose join failed, in order; join number i is joinOk(i). */
  ghost function Survivors(nodes: seq<ThreadNode>, joinOk: nat -> bool, n: nat): seq<ThreadNode>
    requires n <= |nodes|
  {
    if n == 0 then []
    else Survivors(nodes, joinOk, n - 1) + if joinOk(n - 1) then [] else [nodes[n - 1]]
  }

  /** Of the first n nodes, those whose join succeeded. */
  ghost function Joined(nodes: seq<ThreadNode>, joinOk: nat -> bool, n: nat): set<ThreadNode>
    requires n <= |nodes|
  {
    if n == 0 then {}
    else Joined(nodes, joinOk, n - 1) + if joinOk(n - 1) then {nodes[n - 1]} else {}
  }

  ghost predicate Distinct(nodes: seq<ThreadNode>) {
    forall i, j :: 0 <= i < j < |nodes| ==> nodes[i] != nodes[j]
  }

  /** A survivor is a node of the list that was not joined, and nodes to come are neither. */
  lemma {:induction false} SurvivorsAreNodes(nodes: seq<ThreadNode>, joinOk: nat -> bool, n: nat)
    requires Distinct(nodes) && n <= |nodes|
    ensures forall i :: 0 <= i < |Survivors(nodes, joinOk, n)| ==>
              && Survivors(nodes, joinOk, n)[i] in nodes[..n]
              && Survivors(nodes, joinOk, n)[i] !in Joined(nodes, joinOk, n)
    ensures Joined(nodes, joinOk, n) <= set x | x in nodes[..n]
    ensures forall k :: n <= k < |nodes| ==> nodes[k] !in Joined(nodes, joinOk, n)
  {
    if n > 0 {
      SurvivorsAreNodes(nodes, joinOk, n - 1);
      assert nodes[..n] == nodes[..n - 1] + [nodes[n - 1]];
    }
  }

  /** When every join succeeds the list is empty afterwards. */
  lemma {:induction false} AllJoined(nodes: seq<ThreadNode>, joinOk: nat -> bool, n: nat)
    requires n <= |nodes|
    ensures Survivors(nodes, joinOk, n) == [] <==> forall k: nat :: k < n ==> joinOk(k)
  {
    if n > 0 {
      AllJoined(nodes, joinOk, n - 1);
    }
  }

  function Ids(nodes: seq<ThreadNode>): (ids: seq<nat>)
    ensures |ids| == |nodes|
  {
    seq(|nodes|, i requires 0 <= i < |nodes| => nodes[i].threadId)
  }

  lemma VisitIds(nodes: seq<ThreadNode>, n: nat)
    requires n < |nodes|
    ensures Ids(nodes)[..n + 1] == Ids(nodes)[..n] + [nodes[n].threadId]
  {
  }

  /** The list when the pass is about to visit node number n. */
  ghost function Remaining(nodes: seq<ThreadNode>, joinOk: nat -> bool, n: nat): seq<ThreadNode>
    requires n <= |nodes|
  {
    Survivors(nodes, joinOk, n) + nodes[n..]
  }

  /** The node after number i, or null at the end; number -1 stands for the list head. */
  ghost function Successor(nodes: seq<ThreadNode>, i: int): ThreadNode?
    requires -1 <= i < |nodes|
  {
    if i + 1 < |nodes| then nodes[i + 1] else null
  }

  /** A visit removes its own node from what remains, or leaves everything in place. */
  lemma VisitStep(nodes: seq<ThreadNode>, joinOk: nat -> bool, n: nat)
    requires n < |nodes|
    ensures var now, place := Remaining(nodes, joinOk, n), |Survivors(nodes, joinOk, n)|;
            && now[place] == nodes[n] && Successor(now, place) == Successor(nodes, n)
            && Remaining(nodes, joinOk, n + 1) == if joinOk(n) then now[..place] + now[place + 1..] else now
  {
    assert nodes[n..] == [nodes[n]] + nodes[n + 1..];
  }

  lemma RemainingAreNodes(nodes: seq<ThreadNode>, joinOk: nat -> bool, n: nat)
    requires Distinct(nodes) && n <= |nodes|
    ensures forall i :: 0 <= i < |Remaining(nodes, joinOk, n)| ==> Remaining(nodes, joinOk, n)[i] in nodes
  {
    SurvivorsAreNodes(nodes, joinOk, n);
  }

  lemma SurvivorsNotFreed(nodes: seq<ThreadNode>, joinOk: nat -> bool, freed: set<ThreadNode>)
    requires Distinct(nodes) && forall i :: 0 <= i < |nodes| ==> nodes[i] !in freed
    ensures forall i :: 0 <= i < |Survivors(nodes, joinOk, |nodes|)| ==>
              Survivors(nodes, joinOk, |nodes|)[i] !in freed + Joined(nodes, joinOk, |nodes|)
  {
    SurvivorsAreNodes(nodes, joinOk, |nodes|);
  }

  /** The pass over all is about to visit node number n of it, current; was is what had been
      freed before the pass, and now and freed are the list and the freed nodes at this point. */
  ghost predicate Passing(all: seq<ThreadNode>, joinOk: nat -> bool, n: nat, was: set<ThreadNode>,
                          current: ThreadNode?, visited: seq<nat>, now: seq<ThreadNode>, freed: set<ThreadNode>) {
    && n <= |all| && current == Successor(all, n - 1) && visited == Ids(all)[..n]
    && now == Remaining(all, joinOk, n) && freed == was + Joined(all, joinOk, n)
  }

  /** The node about to be visited is in the list, and live. */
  lemma CurrentIsPlaced(all: seq<ThreadNode>, joinOk: nat -> bool, n: nat, was: set<ThreadNode>,
                        current: ThreadNode, visited: seq<nat>, now: seq<ThreadNode>, freed: set<ThreadNode>)
    requires Distinct(all) && Passing(all, joinOk, n, was, current, visited, now, freed)
    requires forall i :: 0 <= i < |all| ==> all[i] !in was
    ensures var place := |Survivors(all, joinOk, n)|;
            n < |all| && place < |now| && now[place] == current && current !in freed
    ensures forall i :: 0 <= i < |now| ==> now[i] in all
  {
    VisitStep(all, joinOk, n);
    SurvivorsAreNodes(all, joinOk, n);
    RemainingAreNodes(all, joinOk, n);
  }

  lemma PassingStep(all: seq<ThreadNode>, joinOk: nat -> bool, n: nat, was: set<ThreadNode>,
                    current: ThreadNode, visited: seq<nat>, now: seq<ThreadNode>, freed: set<ThreadNode>)
    requires n < |all| && Passing(all, joinOk, n, was, current, visited, now, freed)
    ensures var place := |Survivors(all, joinOk, n)|;
            place < |now| &&
            Passing(all, joinOk, n + 1, was, Successor(now, place), visited + [current.threadId],
                    if joinOk(n) then now[..place] + now[place + 1..] else now,
                    freed + if joinOk(n) then {current} else {})
  {
    VisitStep(all, joinOk, n);
    VisitIds(all, n);
  }

  class ThreadList {
    var head: ThreadNode?
    ghost var nodes: seq<ThreadNode>   // in list order
    ghost var freed: set<ThreadNode>

    ghost predicate Linked()
      reads this, nodes
    {
      && head == Successor(nodes, -1)
      && (forall i {:trigger nodes[i].next} :: 0 <= i < |nodes| ==> nodes[i].next == Successor(nodes, i))
      && Distinct(nodes)
    }

    ghost predicate Valid()
      reads this, nodes
    {
      Linked() && forall i :: 0 <= i < |nodes| ==> nodes[i] !in freed
    }

    constructor ()
      ensures Valid() && nodes == [] && freed == {}
    {
      head, nodes, freed := null, [], {};
    }

    /** thread_node_add: when malloc fails the thread is not recorded. */
    method NodeAdd(threadId: nat, mallocOk: bool)
      requires Valid()
      modifies this
      ensures Valid() && freed == old(freed)
      ensures !mallocOk ==> nodes == old(nodes)
      ensures mallocOk ==>
                && |nodes| == 1 + |old(nodes)| && nodes[1..] == old(nodes)
                && fresh(nodes[0]) && nodes[0].threadId == threadId
    {
      if !mallocOk {
        return;
      }
      var node := new ThreadNode(threadId, head);
      head, nodes := node, [node] + nodes;
      forall i | 0 < i < |nodes|
        ensures nodes[i].next == Successor(nodes, i)
      {
        assert nodes[i] == old(nodes)[i - 1] && old(nodes)[i - 1].next == Successor(old(nodes), i - 1);
      }
    }

    /** SLIST_REMOVE: walk to the node before elm, which is node number j, and unlink elm. */
    method Remove(elm: ThreadNode, ghost j: nat)
      requires Linked() && j < |nodes| && nodes[j] == elm
      modifies this`head, this`nodes, set i | 0 <= i < |nodes| :: nodes[i]
      ensures Linked() && nodes == old(nodes[..j] + nodes[j + 1..])
    {
      assert elm.next == Successor(nodes, j);
      if head == elm {
        head := elm.next;
      } else {
        var current, i := head, 0;
        while current.next != elm
          invariant 0 <= i < j && current != null && current == nodes[i]
          decreases j - i
        {
          assert nodes[i].next == nodes[i + 1];
          current, i := current.next, i + 1;
        }
        assert nodes[i].next == nodes[i + 1];
        current.next := elm.next;
      }
      nodes := nodes[..j] + nodes[j + 1..];
      forall i | 0 <= i < |nodes|
        ensures nodes[i].next == Successor(nodes, i)
      {
        var k := if i < j then i else i + 1;
        assert nodes[i] == old(nodes)[k] && old(nodes[k].next) == Successor(old(nodes), k);
      }
    }

    /** One turn of the pass: note the next node, join, and if that worked remove and free.  The
        node is live when it is read. */
    method Visit(current: ThreadNode, ghost place: nat, joined: bool) returns (next: ThreadNode?)
      requires Linked() && place < |nodes| && nodes[place] == current && current !in freed
      modifies this, set i | 0 <= i < |nodes| :: nodes[i]
      ensures Linked() && next == Successor(old(nodes), place)
      ensures nodes == if joined then old(nodes[..place] + nodes[place + 1..]) else old(nodes)
      ensures freed == old(freed) + if joined then {current} else {}
    {
      next := current.next;
      assert nodes[place].next == Successor(nodes, place);
      if joined {
        Remove(current, place);
        freed := freed + {current};
      }
    }

    method Turn(ghost all: seq<ThreadNode>, joinOk: nat -> bool, n: nat, ghost was: set<ThreadNode>,
                current: ThreadNode, visited: seq<nat>) returns (next: ThreadNode?, visited': seq<nat>)
      requires Distinct(all) && Linked() && Passing(all, joinOk, n, was, current, visited, nodes, freed)
      requires forall i :: 0 <= i < |all| ==> all[i] !in was
      modifies this, all
      ensures Linked() && n < |all| && Passing(all, joinOk, n + 1, was, next, visited', nodes, freed)
    {
      ghost var place, now, free := |Survivors(all, joinOk, n)|, nodes, freed;
      CurrentIsPlaced(all, joinOk, n, was, current, visited, now, free);
      visited' := visited + [current.threadId];
      next := Visit(current, place, joinOk(n));
      PassingStep(all, joinOk, n, was, current, visited, now, free);
    }

    /** thread_join.  Each node is visited once, in list order, and read only while it is live;
        exactly the nodes whose join failed remain, in order. */
    method Join(joinOk: nat -> bool) returns (visited: seq<nat>)
      requires Valid()
      modifies this, nodes
      ensures Valid() && nodes == Survivors(old(nodes), joinOk, |old(nodes)|)
      ensures visited == Ids(old(nodes))
      ensures freed == old(freed) + Joined(old(nodes), joinOk, |old(nodes)|)
    {
      visited := [];
      ghost var all := nodes;
      var current, count := head, 0;
      while current != null
        invariant 0 <= count && Linked() && Passing(all, joinOk, count, old(freed), current, visited, nodes, freed)
        decreases |all| - count
      {
        current, visited := Turn(all, joinOk, count, old(freed), current, visited);
        count := count + 1;
      }
      SurvivorsNotFreed(all, joinOk, old(freed));
    }
  }
}
