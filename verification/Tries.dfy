/**
 The two tries of Lab8/10-lookup as linked nodes updated in place: walking loops proved to do
 what `Prefixes` says of paths and ports.
 */
module Tries {
  import opened LookupTheorems
  import opened Prefixes

  /** The bit that the mask shifted right `i` times selects; a mask shifted out selects nothing. */
  function Bit(ip: Bits, i: nat): bool {
    i < |ip| && ip[i]
  }

  lemma SameEnds(p: Bits, b: Bits, q: Bits, c: Bits)
    requires |b| == |c|
    ensures p + b == q + c <==> p == q && b == c
  {
    if p + b == q + c {
      assert p == (p + b)[..|p|] == q;
      assert b == (p + b)[|p|..] == c;
    }
  }

  /** Nothing hangs from a path without a node. */
  lemma NoneBelow(m: Ports, p: Bits, b: Bits, step: nat)
    requires Trie(m, step) && p !in m && |b| == step
    ensures p + b !in m
  {
    assert (p + b)[..|p|] == p;
    assert p + b in m ==> Hangs(m, p + b, step);
  }

  // ---------------------------------------------------------------- one bit a level

  class Node {
    ghost const path: Bits
    var port: int
    var left: Node?
    var right: Node?

    constructor (ghost path: Bits, port: int)
      ensures this.path == path && this.port == port
      ensures forall b :: Son(b) == null
    {
      this.path := path;
      this.port := port;
      left, right := null, null;
    }

    function Son(bit: bool): Node?
      reads this
    {
      if !bit then left else right
    }

    method SetSon(bit: bool, son: Node)
      modifies this
      ensures port == old(port)
      ensures forall b :: Son(b) == if b == bit then son else old(Son(b))
    {
      if !bit {
        left := son;
      } else {
        right := son;
      }
    }
  }

  /** A child pointer leads to the node at `path`, or is null without one. */
  ghost predicate Leads(nodes: set<Node>, contents: Ports, son: Node?, path: Bits) {
    if son == null then path !in contents else son in nodes && son.path == path
  }

  class BinaryTrie {
    const root: Node
    /** The nodes, and their ports by path. */
    ghost var nodes: set<Node>
    ghost var contents: Ports

    /** Every child pointer leads one bit further, and no two nodes share a path. */
    ghost predicate Shape()
      reads this, nodes
    {
      && root in nodes && root.path == []
      && (forall n :: n in nodes ==> |n.path| <= WIDTH && n.path in contents)
      && (forall n :: n in nodes ==> contents[n.path] == n.port)
      && (forall n, b {:trigger n.Son(b)} :: n in nodes ==> Leads(nodes, contents, n.Son(b), n.path + [b]))
      && (forall n, o :: n in nodes && o in nodes && n.path == o.path ==> n == o)
    }

    ghost predicate Valid()
      reads this, nodes
    {
      Shape() && Trie(contents, 1)
    }

    /** init_tree */
    constructor ()
      ensures Valid() && fresh(nodes)
      ensures contents == map[[] := 0]
    {
      root := new Node([], 0);
      nodes, contents := {root}, map[[] := 0];
    }

    /** A missing son is made with the port of its parent. */
    method AddSon(ptr: Node, bit: bool)
      requires Shape() && ptr in nodes && |ptr.path| < WIDTH && ptr.path + [bit] !in contents
      requires forall b :: ptr.path + [bit] + [b] !in contents
      modifies this, ptr
      ensures Shape() && fresh(nodes - old(nodes)) && old(nodes) <= nodes
      ensures contents == old(contents)[ptr.path + [bit] := old(ptr.port)]
    {
      ghost var path := ptr.path + [bit];
      var tmp := new Node(path, ptr.port);
      ptr.SetSon(bit, tmp);
      nodes, contents := nodes + {tmp}, contents[path := tmp.port];
      forall x: Bits, b ensures x + [b] == path <==> x == ptr.path && b == bit {
        SameEnds(x, [b], ptr.path, [bit]);
      }
    }

    /** The next node on the way, made where it is missing with the port of its parent. */
    method Down(ptr: Node, bit: bool) returns (son: Node)
      requires Valid() && ptr in nodes && |ptr.path| < WIDTH
      modifies this, ptr
      ensures Valid() && fresh(nodes - old(nodes)) && old(nodes) <= nodes
      ensures son in nodes && son.path == ptr.path + [bit]
      ensures contents == if son.path in old(contents) then old(contents) else old(contents)[son.path := old(ptr.port)]
    {
      assert Leads(nodes, contents, ptr.Son(bit), ptr.path + [bit]);
      if ptr.Son(bit) == null {
        NoneBelow(contents, ptr.path + [bit], [false], 1);
        NoneBelow(contents, ptr.path + [bit], [true], 1);
        assert (ptr.path + [bit])[..|ptr.path|] == ptr.path;
        NewNodeHangs(contents, ptr.path + [bit], ptr.port, 1);
        AddSon(ptr, bit);
        assert Leads(nodes, contents, ptr.Son(bit), ptr.path + [bit]);
      }
      son := ptr.Son(bit);
    }

    method SetPort(ptr: Node, port: int)
      requires Shape() && ptr in nodes
      modifies this`contents, ptr`port
      ensures Shape() && contents == old(contents)[ptr.path := port]
    {
      ptr.port := port;
      contents := contents[ptr.path := port];
      forall n, b | n in nodes ensures Leads(nodes, contents, n.Son(b), n.path + [b]) {
        assert n.Son(b) == old(n.Son(b));
      }
    }

    /** insert_info */
    method InsertInfo(ip: Bits, prefixLen: nat, port: int)
      requires Valid() && |ip| == WIDTH && prefixLen <= WIDTH
      modifies this, nodes
      ensures Valid() && fresh(nodes - old(nodes))
      ensures contents == Insert(old(contents), ip[..prefixLen], port, 1)
    {
      ghost var q := ip[..prefixLen];
      var ptr := root;
      for i := 0 to prefixLen
        invariant Valid() && fresh(nodes - old(nodes)) && old(nodes) <= nodes
        invariant ptr in nodes && ptr.path == q[..i]
        invariant contents == Extend(old(contents), q, 1, i)
      {
        assert q[..i + 1] == q[..i] + [Bit(ip, i)];
        ptr := Down(ptr, Bit(ip, i));
      }
      assert q[..prefixLen] == q;
      SamePaths(contents, q, port, 1);
      SetPort(ptr, port);
    }

    /** lookup */
    method Lookup(ip: Bits) returns (port: int)
      requires Valid() && |ip| == WIDTH
      ensures port == TrieLookup(contents, ip, 1)
    {
      var ptr: Node? := root;
      var ret := root;
      var i: nat := 0;
      assert ip[..0] == [];
      while ptr != null
        invariant i <= WIDTH + 1
        invariant ret in nodes && ret.path == ip[..if i == 0 then 0 else i - 1]
        invariant ptr != null ==> i <= WIDTH && ptr in nodes && ptr.path == ip[..i]
        invariant ptr != null ==> Deepest(contents, ip, 1, 0) == Deepest(contents, ip, 1, i)
        invariant ptr == null ==> 0 < i && Deepest(contents, ip, 1, 0) == i - 1
        decreases WIDTH + 1 - i
      {
        ret := ptr;
        assert Leads(nodes, contents, ptr.Son(Bit(ip, i)), ip[..i] + [Bit(ip, i)]);
        assert i < WIDTH ==> ip[..i + 1] == ip[..i] + [Bit(ip, i)];
        if !Bit(ip, i) {
          ptr := ptr.left;
        } else {
          ptr := ptr.right;
        }
        i := i + 1;
      }
      port := ret.port;
    }
  }

  // ---------------------------------------------------------------- two bits a level

  class Node4 {
    ghost const path: Bits
    var port: int
    var son00: Node4?
    var son01: Node4?
    var son10: Node4?
    var son11: Node4?

    constructor (ghost path: Bits, port: int)
      ensures this.path == path && this.port == port
      ensures forall b, c :: Son(b, c) == null
    {
      this.path := path;
      this.port := port;
      son00, son01, son10, son11 := null, null, null, null;
    }

    function Son(bit: bool, next: bool): Node4?
      reads this
    {
      if !bit then if !next then son00 else son01
      else if !next then son10 else son11
    }

    method SetSon(bit: bool, next: bool, son: Node4)
      modifies this
      ensures port == old(port)
      ensures forall b, c :: Son(b, c) == if b == bit && c == next then son else old(Son(b, c))
    {
      if !bit {
        if !next {
          son00 := son;
        } else {
          son01 := son;
        }
      } else {
        if !next {
          son10 := son;
        } else {
          son11 := son;
        }
      }
    }
  }

  ghost predicate Leads4(nodes: set<Node4>, contents: Ports, son: Node4?, path: Bits) {
    if son == null then path !in contents else son in nodes && son.path == path
  }

  class QuadTrie {
    const root: Node4
    ghost var nodes: set<Node4>
    ghost var contents: Ports

    ghost predicate Shape()
      reads this, nodes
    {
      && root in nodes && root.path == []
      && (forall n :: n in nodes ==> |n.path| <= WIDTH && n.path in contents)
      && (forall n :: n in nodes ==> contents[n.path] == n.port)
      && (forall n, b, c {:trigger n.Son(b, c)} :: n in nodes ==> Leads4(nodes, contents, n.Son(b, c), n.path + [b, c]))
      && (forall n, o :: n in nodes && o in nodes && n.path == o.path ==> n == o)
    }

    ghost predicate Valid()
      reads this, nodes
    {
      Shape() && Trie(contents, 2)
    }

    /** init_tree_2bit */
    constructor ()
      ensures Valid() && fresh(nodes)
      ensures contents == map[[] := 0]
    {
      root := new Node4([], 0);
      nodes, contents := {root}, map[[] := 0];
    }

    method AddSon(ptr: Node4, bit: bool, next: bool, port: int)
      requires Shape() && ptr in nodes && |ptr.path| + 2 <= WIDTH && ptr.path + [bit, next] !in contents
      requires forall b, c :: ptr.path + [bit, next] + [b, c] !in contents
      modifies this, ptr
      ensures Shape() && fresh(nodes - old(nodes)) && old(nodes) <= nodes
      ensures contents == old(contents)[ptr.path + [bit, next] := port]
    {
      ghost var path := ptr.path + [bit, next];
      var tmp := new Node4(path, port);
      ptr.SetSon(bit, next, tmp);
      nodes, contents := nodes + {tmp}, contents[path := tmp.port];
      forall x: Bits, b, c ensures x + [b, c] == path <==> x == ptr.path && b == bit && c == next {
        SameEnds(x, [b, c], ptr.path, [bit, next]);
      }
    }

    /** A son, made where it is missing with `port`; one that is there keeps its own. */
    method Fill(ptr: Node4, bit: bool, next: bool, port: int) returns (son: Node4)
      requires Valid() && ptr in nodes && |ptr.path| + 2 <= WIDTH && Level(|ptr.path|, 2)
      modifies this, ptr
      ensures Valid() && fresh(nodes - old(nodes)) && old(nodes) <= nodes
      ensures son in nodes && son.path == ptr.path + [bit, next]
      ensures contents == if son.path in old(contents) then old(contents) else old(contents)[son.path := port]
    {
      assert Leads4(nodes, contents, ptr.Son(bit, next), ptr.path + [bit, next]);
      if ptr.Son(bit, next) == null {
        forall b, c ensures ptr.path + [bit, next] + [b, c] !in contents {
          NoneBelow(contents, ptr.path + [bit, next], [b, c], 2);
        }
        assert (ptr.path + [bit, next])[..|ptr.path|] == ptr.path;
        NewNodeHangs(contents, ptr.path + [bit, next], port, 2);
        AddSon(ptr, bit, next, port);
        assert Leads4(nodes, contents, ptr.Son(bit, next), ptr.path + [bit, next]);
      }
      son := ptr.Son(bit, next);
    }

    method SetPort(ptr: Node4, port: int)
      requires Shape() && ptr in nodes
      modifies this`contents, ptr`port
      ensures Shape() && contents == old(contents)[ptr.path := port]
    {
      ptr.port := port;
      contents := contents[ptr.path := port];
      forall n, b, c | n in nodes ensures Leads4(nodes, contents, n.Son(b, c), n.path + [b, c]) {
        assert n.Son(b, c) == old(n.Son(b, c));
      }
    }

    /** The way down to the last level at or above the end of the prefix. */
    method Walk(ip: Bits, prefixLen: nat) returns (ptr: Node4)
      requires Valid() && |ip| == WIDTH && prefixLen <= WIDTH
      modifies this, nodes
      ensures Valid() && fresh(nodes - old(nodes)) && old(nodes) <= nodes
      ensures ptr in nodes && ptr.path == ip[..prefixLen - prefixLen % 2]
      ensures contents == Extend(old(contents), ip[..prefixLen], 2, prefixLen - prefixLen % 2)
    {
      ghost var q := ip[..prefixLen];
      ptr := root;
      var i: nat := 0;
      while i < prefixLen - 1
        invariant i <= prefixLen && i % 2 == 0
        invariant Valid() && fresh(nodes - old(nodes)) && old(nodes) <= nodes
        invariant ptr in nodes && ptr.path == q[..i]
        invariant contents == Extend(old(contents), q, 2, i)
      {
        assert q[..i + 2] == q[..i] + [Bit(ip, i), Bit(ip, i + 1)];
        ptr := Fill(ptr, Bit(ip, i), Bit(ip, i + 1), ptr.port);
        i := i + 2;
      }
      assert ip[..i] == q[..i];
    }

    /** insert_info_2bit */
    method InsertInfo(ip: Bits, prefixLen: nat, port: int)
      requires Valid() && |ip| == WIDTH && prefixLen <= WIDTH
      modifies this, nodes
      ensures Valid() && fresh(nodes - old(nodes))
      ensures contents == Insert(old(contents), ip[..prefixLen], port, 2)
    {
      ghost var q := ip[..prefixLen];
      var ptr := Walk(ip, prefixLen);
      if prefixLen % 2 == 1 {
        var bit := Bit(ip, prefixLen - 1);
        assert forall c :: ptr.path + [bit, c] == q + [c];
        var son := Fill(ptr, bit, false, port);
        son := Fill(ptr, bit, true, port);
      } else {
        assert ip[..prefixLen] == ptr.path;
        SamePaths(contents, q, port, 2);
        SetPort(ptr, port);
      }
    }

    /** lookup_2bit */
    method Lookup(ip: Bits) returns (port: int)
      requires Valid() && |ip| == WIDTH
      ensures port == TrieLookup(contents, ip, 2)
    {
      var ptr: Node4? := root;
      var ret := root;
      var i: nat := 0;
      assert ip[..0] == [];
      while ptr != null
        invariant i <= WIDTH + 2 && i % 2 == 0
        invariant ret in nodes && ret.path == ip[..if i == 0 then 0 else i - 2]
        invariant ptr != null ==> i <= WIDTH && ptr in nodes && ptr.path == ip[..i]
        invariant ptr != null ==> Deepest(contents, ip, 2, 0) == Deepest(contents, ip, 2, i)
        invariant ptr == null ==> 0 < i && Deepest(contents, ip, 2, 0) == i - 2
        decreases WIDTH + 2 - i
      {
        ret := ptr;
        var bit, next := Bit(ip, i), Bit(ip, i + 1);
        assert Leads4(nodes, contents, ptr.Son(bit, next), ip[..i] + [bit, next]);
        assert i < WIDTH ==> ip[..i + 2] == ip[..i] + [bit, next];
        if !bit {
          ptr := if !next then ptr.son00 else ptr.son01;
        } else {
          ptr := if !next then ptr.son10 else ptr.son11;
        }
        i := i + 2;
      }
      port := ret.port;
    }
  }

  // ---------------------------------------------------------------- loading a table

  /** One line of the forwarding table. */
  datatype Info = Info(ip: Bits, prefixLen: nat, port: int)

  ghost predicate InfosOk(infos: seq<Info>) {
    forall i :: 0 <= i < |infos| ==> |infos[i].ip| == WIDTH && infos[i].prefixLen <= WIDTH
  }

  ghost function EntriesOf(infos: seq<Info>): (es: seq<Entry>)
    requires InfosOk(infos)
    ensures |es| == |infos|
  {
    seq(|infos|, i requires 0 <= i < |infos| => Entry(infos[i].ip[..infos[i].prefixLen], infos[i].port))
  }

  method InsertBoth(binary: BinaryTrie, quad: QuadTrie, info: Info)
    requires binary.Valid() && quad.Valid() && |info.ip| == WIDTH && info.prefixLen <= WIDTH
    modifies binary, binary.nodes, quad, quad.nodes
    ensures binary.Valid() && fresh(binary.nodes - old(binary.nodes))
    ensures quad.Valid() && fresh(quad.nodes - old(quad.nodes))
    ensures binary.contents == Insert(old(binary.contents), info.ip[..info.prefixLen], info.port, 1)
    ensures quad.contents == Insert(old(quad.contents), info.ip[..info.prefixLen], info.port, 2)
  {
    binary.InsertInfo(info.ip, info.prefixLen, info.port);
    quad.InsertInfo(info.ip, info.prefixLen, info.port);
  }

  /** main reads the table line by line into both tries. */
  method Load(infos: seq<Info>) returns (binary: BinaryTrie, quad: QuadTrie)
    requires InfosOk(infos)
    ensures fresh(binary) && fresh(binary.nodes) && fresh(quad) && fresh(quad.nodes)
    ensures binary.Valid() && binary.contents == TrieOf(EntriesOf(infos), 1)
    ensures quad.Valid() && quad.contents == TrieOf(EntriesOf(infos), 2)
  {
    binary := new BinaryTrie();
    quad := new QuadTrie();
    ghost var es := EntriesOf(infos);
    for i := 0 to |infos|
      invariant fresh(binary) && fresh(binary.nodes) && fresh(quad) && fresh(quad.nodes)
      invariant binary.Valid() && binary.contents == TrieOf(es[..i], 1)
      invariant quad.Valid() && quad.contents == TrieOf(es[..i], 2)
    {
      assert es[..i + 1][..i] == es[..i] && es[..i + 1][i] == es[i];
      InsertBoth(binary, quad, infos[i]);
    }
    assert es[..|infos|] == es;
  }

  /** With distinct prefixes inserted before their extensions, both lookups of any address return
      the port of its longest match. */
  method LoadAndLookup(infos: seq<Info>, ip: Bits) returns (port: int, port2: int)
    requires InfosOk(infos) && ShortFirst(EntriesOf(infos)) && |ip| == WIDTH
    ensures port == port2 == Lpm(TableOf(EntriesOf(infos)), ip)
  {
    var binary, quad := Load(infos);
    port := binary.Lookup(ip);
    port2 := quad.Lookup(ip);
    TriesMatchTable(EntriesOf(infos), ip);
  }
}
