/** The set of hashes of hash.cc: an array of buckets, each a chain of linked
    nodes. */
module HashSet {
  import opened Bytes
  import opened UrlCodec

  const HASHTABLE_SIZE: nat := 0x40_0000

  /** The first eight octets as a little-endian number, modulo the table size. */
  function BucketOf(h: Digest): (n: nat)
    ensures n < HASHTABLE_SIZE
  {
    LittleEndian(h[..8]) % HASHTABLE_SIZE
  }

  function LittleEndian(s: Bytes): nat
  {
    if s == [] then 0 else s[0] as int + 256 * LittleEndian(s[1..])
  }

  class Node {
    var next: Node?
    var h: Digest

    constructor (next: Node?, h: Digest)
      ensures this.next == next && this.h == h
    {
      this.next := next;
      this.h := h;
    }
  }

  /** `chain` lists the nodes met from `head` by following `next` to its end,
      so a chain that has such a list is acyclic. */
  ghost predicate ChainFrom(head: Node?, chain: seq<Node>)
    reads chain
  {
    if chain == [] then head == null
    else head == chain[0] && ChainFrom(chain[0].next, chain[1..])
  }

  class Table {
    const nodes: array<Node?>
    /** The nodes of each bucket, in chain order, and all of them. */
    ghost var chains: seq<seq<Node>>
    ghost var members: set<Node>

    ghost function Repr(): set<object>
      reads this
    {
      {this, nodes} + members
    }

    ghost predicate MembersValid()
      reads this
    {
      && (forall b, i :: 0 <= b < |chains| && 0 <= i < |chains[b]| ==> chains[b][i] in members)
      && (forall x :: x in members ==> exists b, i :: 0 <= b < |chains| && 0 <= i < |chains[b]| && chains[b][i] == x)
    }

    /** One bucket: an acyclic chain of nodes that belong here, no hash twice. */
    ghost predicate BucketValid(b: nat)
      requires b < nodes.Length == |chains|
      reads this, nodes, chains[b]
    {
      && ChainFrom(nodes[b], chains[b])
      && (forall i :: 0 <= i < |chains[b]| ==> BucketOf(chains[b][i].h) == b)
      && (forall i, j :: 0 <= i < j < |chains[b]| ==> chains[b][i].h != chains[b][j].h)
    }

    ghost predicate Valid()
      reads this, nodes, members
    {
      && nodes.Length == HASHTABLE_SIZE == |chains| && MembersValid()
      && forall b :: 0 <= b < HASHTABLE_SIZE ==> BucketValid(b)
    }

    /** The mathematical set that the table stands for. */
    ghost function Contents(): set<Digest>
      reads this, members
    {
      set n | n in members :: n.h
    }

    constructor ()
      ensures Valid() && fresh(Repr()) && Contents() == {}
    {
      nodes := new Node?[HASHTABLE_SIZE];
      chains := seq(HASHTABLE_SIZE, _ => []);
      members := {};
      new;
      for n := 0 to HASHTABLE_SIZE
        modifies nodes
        invariant forall b :: 0 <= b < n ==> nodes[b] == null
      {
        nodes[n] := null;
      }
      assert forall b :: 0 <= b < HASHTABLE_SIZE ==> chains[b] == [] && ChainFrom(nodes[b], chains[b]);
    }

    /** Walks the chain of one bucket up to the node with `h`, or off its end. */
    method Find(h: Digest) returns (np: Node?)
      requires Valid()
      ensures np != null <==> h in Contents()
      ensures np != null ==> np in members && np.h == h
    {
      var n := BucketOf(h);
      np := nodes[n];
      ghost var i := 0;
      assert BucketValid(n);
      while np != null && h != np.h
        invariant i <= |chains[n]| && ChainFrom(np, chains[n][i..])
        invariant forall k :: 0 <= k < i ==> chains[n][k].h != h
        decreases |chains[n]| - i
      {
        np := np.next;
        i := i + 1;
      }
      if np != null {
        assert chains[n][i..][0] == chains[n][i];
      } else {
        forall b, k | 0 <= b < HASHTABLE_SIZE && 0 <= k < |chains[b]|
          ensures chains[b][k].h != h
        {
          assert BucketValid(b);
        }
      }
    }

    method Has(h: Digest) returns (r: bool)
      requires Valid()
      ensures r <==> h in Contents()
    {
      var np := Find(h);
      r := np != null;
    }

    method Insert(h: Digest)
      requires Valid()
      modifies this, nodes
      ensures Valid() && fresh(Repr() - old(Repr()))
      ensures Contents() == old(Contents()) + {h}
    {
      var np := Find(h);
      if np == null {
        AddFront(BucketOf(h), h);
      }
    }

    method AddFront(n: nat, h: Digest)
      requires Valid() && h !in Contents() && n == BucketOf(h)
      modifies this, nodes
      ensures Valid() && fresh(Repr() - old(Repr()))
      ensures Contents() == old(Contents()) + {h}
    {
      hide ChainFrom, BucketOf, MembersValid;
      var node := new Node(nodes[n], h);
      ghost var before, prev := chains, members;
      assert forall x :: x in members ==> x.h != h;
      InMembers();
      assert BucketValid(n);
      ChainGrows(node, nodes[n], before[n]);
      chains := chains[n := [node] + chains[n]];
      nodes[n] := node;
      members := members + {node};
      forall b | 0 <= b < HASHTABLE_SIZE
        ensures BucketValid(b)
      {
        if b != n {
          assert old(BucketValid(b));
        }
      }
      MembersGrow(before, prev, n, node);
    }

    lemma InMembers()
      requires MembersValid()
      ensures forall b, i :: 0 <= b < |chains| && 0 <= i < |chains[b]| ==> chains[b][i] in members
      ensures forall x :: x in members ==>
                exists b, i :: 0 <= b < |chains| && 0 <= i < |chains[b]| && chains[b][i] == x
    {
    }

    lemma {:induction false} MembersGrow(before: seq<seq<Node>>, prev: set<Node>, n: nat, node: Node)
      requires n < |before| && chains == before[n := [node] + before[n]] && members == prev + {node}
      requires forall b, i :: 0 <= b < |before| && 0 <= i < |before[b]| ==> before[b][i] in prev
      requires forall x :: x in prev ==>
                             exists b, i :: 0 <= b < |before| && 0 <= i < |before[b]| && before[b][i] == x
      ensures MembersValid()
    {
      forall x | x in members
        ensures exists b, i :: 0 <= b < |chains| && 0 <= i < |chains[b]| && chains[b][i] == x
      {
        if x !in prev {
          assert chains[n][0] == x;
        } else {
          var b, i :| 0 <= b < |before| && 0 <= i < |before[b]| && before[b][i] == x;
          assert chains[b][if b == n then i + 1 else i] == x;
        }
      }
    }
  }

  /** A head has at most one chain... */
  lemma {:induction false} ChainUnique(head: Node?, c: seq<Node>, d: seq<Node>)
    requires ChainFrom(head, c) && ChainFrom(head, d)
    ensures c == d
    decreases |c|
  {
    if c == [] {
    } else {
      ChainUnique(c[0].next, c[1..], d[1..]);
      assert c == [c[0]] + c[1..] && d == [d[0]] + d[1..];
    }
  }

  lemma {:induction false} ChainTail(head: Node?, chain: seq<Node>, i: nat)
    requires ChainFrom(head, chain) && i < |chain|
    ensures ChainFrom(chain[i], chain[i..])
    decreases i
  {
    if i == 0 {
      assert chain[0..] == chain;
    } else {
      ChainTail(chain[0].next, chain[1..], i - 1);
      assert chain[1..][i - 1..] == chain[i..];
    }
  }

  /** ... and so never comes back to a node it has passed. */
  lemma {:induction false} ChainIsAcyclic(head: Node?, chain: seq<Node>, i: nat, j: nat)
    requires ChainFrom(head, chain) && i < j < |chain|
    ensures chain[i] != chain[j]
  {
    if chain[i] == chain[j] {
      ChainTail(head, chain, i);
      ChainTail(head, chain, j);
      ChainUnique(chain[i], chain[i..], chain[j..]);
    }
  }

  lemma {:induction false} ChainGrows(node: Node, head: Node?, chain: seq<Node>)
    requires ChainFrom(head, chain) && node.next == head
    ensures ChainFrom(node, [node] + chain)
  {
    assert ([node] + chain)[1..] == chain;
  }
}
