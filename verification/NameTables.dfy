/**
  The hash index from addresses to names.  Buckets are chains of nodes that
  end in a blank node; a new entry fills the blank node and links a fresh one
  behind it.  Fresh nodes come from blocks of `block` nodes (64 for the pool
  that several tables share, 1 where each node is allocated by itself).

  Memory is a sequence of nodes and a pointer is a position in it, so chains
  of different buckets could share nodes: that they never do is proved.
*/
module NameTables {
  import opened Octets

  datatype Node<+K> = Node(key: K, name: Option<string>, nxt: Option<nat>)

  // ----- shape of the chains

  /** The chain of bucket `h`: it starts at node `h`, each node links the next, the last is blank. */
  ghost predicate Linked<K>(zero: K, nodes: seq<Node<K>>, chain: seq<nat>, h: nat)
  {
    && |chain| > 0 && chain[0] == h
    && (forall k :: 0 <= k < |chain| ==> chain[k] < |nodes|)
    && (forall k :: 0 <= k < |chain| - 1 ==> nodes[chain[k]].nxt == Some(chain[k + 1]))
    && nodes[chain[|chain| - 1]] == Node(zero, None, None)
  }

  ghost predicate AllLinked<K>(zero: K, nodes: seq<Node<K>>, chains: seq<seq<nat>>)
  {
    forall h :: 0 <= h < |chains| ==> Linked(zero, nodes, chains[h], h)
  }

  /** Every node of a chain knows its one place, so no node is in two places. */
  ghost predicate Placed(chains: seq<seq<nat>>, place: map<nat, (nat, nat)>)
  {
    forall h, k :: 0 <= h < |chains| && 0 <= k < |chains[h]| ==>
      chains[h][k] in place && place[chains[h][k]] == (h, k)
  }

  /** No node occurs twice: not in one chain, not in two. */
  lemma ChainsDisjoint(chains: seq<seq<nat>>, place: map<nat, (nat, nat)>, h: nat, k: nat, h': nat, k': nat)
    requires Placed(chains, place)
    requires h < |chains| && k < |chains[h]| && h' < |chains| && k' < |chains[h']|
    ensures chains[h][k] == chains[h'][k'] ==> h == h' && k == k'
  {
    assert place[chains[h][k]] == (h, k) && place[chains[h'][k']] == (h', k');
  }

  /** The unused slots of the current block are blank and in no chain. */
  ghost predicate PoolFree<K>(zero: K, nodes: seq<Node<K>>, place: map<nat, (nat, nat)>, ptr: nat, num: nat)
  {
    && ptr + num <= |nodes|
    && (forall a :: ptr <= a < ptr + num ==> nodes[a] == Node(zero, None, None) && a !in place)
    && (forall a :: a in place ==> a < |nodes|)
  }

  /** `keys[h]` lists the keys of the occupied nodes of bucket `h`, all but the last, in order. */
  ghost predicate KeysMatch<K>(nodes: seq<Node<K>>, chain: seq<nat>, keys: seq<K>)
  {
    && |chain| == |keys| + 1
    && (forall k :: 0 <= k < |chain| ==> chain[k] < |nodes|)
    && (forall k :: 0 <= k < |keys| ==> nodes[chain[k]].key == keys[k])
  }

  ghost predicate AllKeysMatch<K>(nodes: seq<Node<K>>, chains: seq<seq<nat>>, keys: seq<seq<K>>)
  {
    |keys| == |chains| && forall h :: 0 <= h < |chains| ==> KeysMatch(nodes, chains[h], keys[h])
  }

  /** The position of the first occurrence, or the length. */
  function FirstIndex<K(==)>(s: seq<K>, x: K): (i: nat)
    ensures i <= |s| && (i < |s| <==> x in s)
    ensures i < |s| ==> s[i] == x
    ensures forall k :: 0 <= k < i ==> s[k] != x
  {
    if s == [] then 0 else if s[0] == x then 0 else 1 + FirstIndex(s[1..], x)
  }

  // ----- one insertion

  /** Filling the blank node of bucket `h` and linking `q` behind it keeps all chains in shape. */
  lemma InsertLinks<K>(zero: K, nodes: seq<Node<K>>, chains: seq<seq<nat>>, place: map<nat, (nat, nat)>,
                       h: nat, q: nat, filled: Node<K>)
    requires AllLinked(zero, nodes, chains) && Placed(chains, place) && h < |chains|
    requires q < |nodes| && q !in place && nodes[q] == Node(zero, None, None) && filled.nxt == Some(q)
    ensures var p := chains[h][|chains[h]| - 1];
            && AllLinked(zero, nodes[p := filled], chains[h := chains[h] + [q]])
            && Placed(chains[h := chains[h] + [q]], place[q := (h, |chains[h]|)])
  {
    var c := chains[h];
    var p := c[|c| - 1];
    var nodes', chains' := nodes[p := filled], chains[h := c + [q]];
    assert p in place && p != q;
    forall g | 0 <= g < |chains'|
      ensures Linked(zero, nodes', chains'[g], g)
    {
      assert Linked(zero, nodes, chains[g], g);
      forall k | 0 <= k < |chains[g]| && chains[g][k] == p
        ensures g == h && k == |c| - 1
      {
        ChainsDisjoint(chains, place, g, k, h, |c| - 1);
      }
    }
  }

  lemma InsertKeys<K>(zero: K, nodes: seq<Node<K>>, chains: seq<seq<nat>>, place: map<nat, (nat, nat)>,
                      keys: seq<seq<K>>, h: nat, q: nat, filled: Node<K>)
    requires AllLinked(zero, nodes, chains) && Placed(chains, place) && h < |chains|
    requires AllKeysMatch(nodes, chains, keys) && q < |nodes|
    ensures var p := chains[h][|chains[h]| - 1];
            AllKeysMatch(nodes[p := filled], chains[h := chains[h] + [q]], keys[h := keys[h] + [filled.key]])
  {
    var c := chains[h];
    var p := c[|c| - 1];
    var nodes', chains', keys' := nodes[p := filled], chains[h := c + [q]], keys[h := keys[h] + [filled.key]];
    forall g | 0 <= g < |chains'|
      ensures KeysMatch(nodes', chains'[g], keys'[g])
    {
      assert KeysMatch(nodes, chains[g], keys[g]);
      forall k | 0 <= k < |keys[g]|
        ensures chains[g][k] != p
      {
        ChainsDisjoint(chains, place, g, k, h, |c| - 1);
      }
    }
  }

  /** Appending a block of blank nodes changes nothing that is in use. */
  lemma GrowKeeps<K>(zero: K, nodes: seq<Node<K>>, chains: seq<seq<nat>>, keys: seq<seq<K>>, more: seq<Node<K>>)
    requires AllLinked(zero, nodes, chains) && AllKeysMatch(nodes, chains, keys)
    ensures AllLinked(zero, nodes + more, chains) && AllKeysMatch(nodes + more, chains, keys)
  {
    forall h | 0 <= h < |chains|
      ensures Linked(zero, nodes + more, chains[h], h) && KeysMatch(nodes + more, chains[h], keys[h])
    {
      assert Linked(zero, nodes, chains[h], h) && KeysMatch(nodes, chains[h], keys[h]);
    }
  }

  lemma InsertPool<K>(zero: K, nodes: seq<Node<K>>, place: map<nat, (nat, nat)>, ptr: nat, num: nat,
                      p: nat, q: nat, filled: Node<K>, at: (nat, nat))
    requires PoolFree(zero, nodes, place, ptr, num)
    requires p in place && q < |nodes| && !(ptr <= q < ptr + num)
    ensures PoolFree(zero, nodes[p := filled], place[q := at], ptr, num)
  {}

  /** All that an insertion keeps. */
  lemma InsertKeeps<K>(zero: K, nodes: seq<Node<K>>, chains: seq<seq<nat>>, place: map<nat, (nat, nat)>,
                       keys: seq<seq<K>>, ptr: nat, num: nat, h: nat, q: nat, filled: Node<K>)
    requires AllLinked(zero, nodes, chains) && Placed(chains, place) && AllKeysMatch(nodes, chains, keys)
    requires PoolFree(zero, nodes, place, ptr, num) && h < |chains| && q < |nodes| && q !in place
    requires nodes[q] == Node(zero, None, None) && filled.nxt == Some(q) && !(ptr <= q < ptr + num)
    ensures var p := chains[h][|chains[h]| - 1];
            var nodes', place' := nodes[p := filled], place[q := (h, |chains[h]|)];
            var chains', keys' := chains[h := chains[h] + [q]], keys[h := keys[h] + [filled.key]];
            && AllLinked(zero, nodes', chains') && Placed(chains', place')
            && AllKeysMatch(nodes', chains', keys') && PoolFree(zero, nodes', place', ptr, num)
  {
    assert Linked(zero, nodes, chains[h], h);
    var c := chains[h];
    assert c[|c| - 1] in place;
    InsertLinks(zero, nodes, chains, place, h, q, filled);
    InsertKeys(zero, nodes, chains, place, keys, h, q, filled);
    InsertPool(zero, nodes, place, ptr, num, c[|c| - 1], q, filled, (h, |c|));
  }

  /** Giving an occupied node a name changes no chain and no key. */
  lemma RenameKeeps<K>(zero: K, nodes: seq<Node<K>>, chains: seq<seq<nat>>, place: map<nat, (nat, nat)>,
                       keys: seq<seq<K>>, h: nat, k: nat, name: Option<string>)
    requires AllLinked(zero, nodes, chains) && Placed(chains, place) && AllKeysMatch(nodes, chains, keys)
    requires h < |chains| && k < |chains[h]| - 1
    ensures var p := chains[h][k];
            var nodes' := nodes[p := nodes[p].(name := name)];
            AllLinked(zero, nodes', chains) && AllKeysMatch(nodes', chains, keys)
  {
    var p := chains[h][k];
    var nodes' := nodes[p := nodes[p].(name := name)];
    forall g | 0 <= g < |chains|
      ensures Linked(zero, nodes', chains[g], g) && KeysMatch(nodes', chains[g], keys[g])
    {
      assert Linked(zero, nodes, chains[g], g) && KeysMatch(nodes, chains[g], keys[g]);
      var last := |chains[g]| - 1;
      ChainsDisjoint(chains, place, g, last, h, k);
    }
  }

  /** What comes later does not change where something first occurs. */
  lemma FirstIndexStable<K>(s: seq<K>, t: seq<K>, x: K)
    requires s <= t && x in s
    ensures FirstIndex(t, x) == FirstIndex(s, x)
  {
    var i, j := FirstIndex(s, x), FirstIndex(t, x);
    assert t[i] == s[i] == x && s[j] == t[j];
  }

  /** Node `p` is the first of bucket `h` with the key. */
  ghost predicate KeptAt<K>(chains: seq<seq<nat>>, keys: seq<seq<K>>, h: nat, key: K, p: nat)
  {
    && h < |keys| && h < |chains| && key in keys[h]
    && FirstIndex(keys[h], key) < |chains[h]| && p == chains[h][FirstIndex(keys[h], key)]
  }

  /** Chains and keys have only grown at their ends. */
  ghost predicate Grew<K>(chains: seq<seq<nat>>, keys: seq<seq<K>>, chains': seq<seq<nat>>, keys': seq<seq<K>>)
  {
    && |chains| == |chains'| && |keys| == |keys'|
    && (forall h :: 0 <= h < |chains| ==> chains[h] <= chains'[h])
    && (forall h :: 0 <= h < |keys| ==> keys[h] <= keys'[h])
  }

  /** Growth moves no entry to another node. */
  lemma StaysPut<K>(chains: seq<seq<nat>>, keys: seq<seq<K>>, chains': seq<seq<nat>>, keys': seq<seq<K>>,
                    h: nat, key: K, p: nat)
    requires KeptAt(chains, keys, h, key, p) && Grew(chains, keys, chains', keys')
    ensures KeptAt(chains', keys', h, key, p)
  {
    FirstIndexStable(keys[h], keys'[h], key);
    var i := FirstIndex(keys[h], key);
    assert keys[h][i] == keys'[h][i] && chains[h][i] == chains'[h][i];
  }

  /** Each of the first lookups found the node of its key, and it is still there. */
  ghost predicate AllFound<K>(chains: seq<seq<nat>>, keys: seq<seq<K>>, hash: K -> nat, asks: seq<K>, found: seq<nat>)
  {
    |found| <= |asks| && forall i :: 0 <= i < |found| ==> KeptAt(chains, keys, hash(asks[i]), asks[i], found[i])
  }

  lemma FoundStep<K>(chains: seq<seq<nat>>, keys: seq<seq<K>>, chains': seq<seq<nat>>, keys': seq<seq<K>>,
                     hash: K -> nat, asks: seq<K>, found: seq<nat>, p: nat)
    requires AllFound(chains, keys, hash, asks, found) && Grew(chains, keys, chains', keys') && |found| < |asks|
    requires KeptAt(chains', keys', hash(asks[|found|]), asks[|found|], p)
    ensures AllFound(chains', keys', hash, asks, found + [p])
  {
    forall i | 0 <= i < |found|
      ensures KeptAt(chains', keys', hash(asks[i]), asks[i], found[i])
    {
      StaysPut(chains, keys, chains', keys', hash(asks[i]), asks[i], found[i]);
    }
  }

  /** Two entries share a node exactly when they are the same entry. */
  lemma NodesApart<K>(chains: seq<seq<nat>>, keys: seq<seq<K>>, place: map<nat, (nat, nat)>,
                      h: nat, key: K, p: nat, h': nat, key': K, p': nat)
    requires Placed(chains, place)
    requires KeptAt(chains, keys, h, key, p) && KeptAt(chains, keys, h', key', p')
    ensures p == p' <==> h == h' && key == key'
  {
    var k, k' := FirstIndex(keys[h], key), FirstIndex(keys[h'], key');
    ChainsDisjoint(chains, place, h, k, h', k');
  }

  /** Appending to one bucket is growth. */
  lemma AppendGrows<K>(chains: seq<seq<nat>>, keys: seq<seq<K>>, h: nat, q: nat, key: K)
    requires h < |chains| == |keys| && |chains[h]| == |keys[h]| + 1
    ensures var chains', keys' := chains[h := chains[h] + [q]], keys[h := keys[h] + [key]];
            && Grew(chains, keys, chains', keys')
            && (key !in keys[h] ==> KeptAt(chains', keys', h, key, chains[h][|keys[h]|]))
  {
    var keys' := keys[h := keys[h] + [key]];
    if key !in keys[h] {
      assert keys'[h][|keys[h]|] == key && FirstIndex(keys'[h], key) == |keys[h]|;
    }
  }

  /** Every occupied node, that is every node with a successor, has a name. */
  ghost predicate Named<K>(nodes: seq<Node<K>>)
  {
    forall a :: 0 <= a < |nodes| && nodes[a].nxt.Some? ==> nodes[a].name.Some?
  }

  /** Occupied nodes are as they were, and none but `p` is new. */
  ghost predicate OnlyAdds<K>(nodes: seq<Node<K>>, nodes': seq<Node<K>>, p: nat)
  {
    && |nodes| <= |nodes'|
    && (forall a :: 0 <= a < |nodes| && nodes[a].nxt.Some? ==> nodes'[a] == nodes[a])
    && (forall a :: 0 <= a < |nodes'| && a != p && nodes'[a].nxt.Some? ==> a < |nodes| && nodes[a].nxt.Some?)
  }

  /** Occupied nodes are as they were. */
  ghost predicate OccupiedKept<K>(nodes: seq<Node<K>>, nodes': seq<Node<K>>)
  {
    |nodes| <= |nodes'| && forall a :: 0 <= a < |nodes| && nodes[a].nxt.Some? ==> nodes'[a] == nodes[a]
  }

  /** Keys and links of occupied nodes, and names once given, are as they were. */
  ghost predicate NamesKept<K>(nodes: seq<Node<K>>, nodes': seq<Node<K>>)
  {
    && |nodes| <= |nodes'|
    && forall a :: 0 <= a < |nodes| && nodes[a].nxt.Some? ==>
         && nodes'[a].key == nodes[a].key && nodes'[a].nxt == nodes[a].nxt
         && (nodes[a].name.Some? ==> nodes'[a].name == nodes[a].name)
  }

  /** A new node that has its name keeps every other name. */
  lemma AddingKeeps<K>(nodes: seq<Node<K>>, nodes': seq<Node<K>>, p: nat)
    requires OnlyAdds(nodes, nodes', p) && p < |nodes'| && nodes'[p].name.Some?
    ensures NamesKept(nodes, nodes') && (Named(nodes) ==> Named(nodes'))
  {}

  /** Naming the one new or nameless node keeps every other name. */
  lemma NamingKeeps<K>(nodes: seq<Node<K>>, nodes': seq<Node<K>>, p: nat, text: string)
    requires OnlyAdds(nodes, nodes', p) && p < |nodes'| && nodes'[p].name == None
    ensures var named := nodes'[p := nodes'[p].(name := Some(text))];
            NamesKept(nodes, named) && (Named(nodes) ==> Named(named))
  {}

  // ----- the tables

  /** No slot has been taken from a block twice, and none of those taken is free. */
  ghost predicate HandedOnce(handed: seq<nat>, heads: nat, size: nat, ptr: nat, num: nat)
  {
    && (forall i :: 0 <= i < |handed| ==> heads <= handed[i] < size && !(ptr <= handed[i] < ptr + num))
    && (forall i, j :: 0 <= i < j < |handed| ==> handed[i] != handed[j])
  }

  lemma HandNext(handed: seq<nat>, heads: nat, size: nat, ptr: nat, num: nat)
    requires HandedOnce(handed, heads, size, ptr, num) && num > 0 && heads <= ptr && ptr + num <= size
    ensures HandedOnce(handed + [ptr], heads, size, ptr + 1, num - 1) && ptr !in handed
  {}

  lemma TakeSlot<K>(zero: K, nodes: seq<Node<K>>, place: map<nat, (nat, nat)>, ptr: nat, num: nat)
    requires PoolFree(zero, nodes, place, ptr, num) && num > 0
    ensures PoolFree(zero, nodes, place, ptr + 1, num - 1)
    ensures ptr < |nodes| && nodes[ptr] == Node(zero, None, None) && ptr !in place
  {}

  class Tables<K(==)> {
    const zero: K
    const block: nat
    const heads: nat
    var nodes: seq<Node<K>>
    var ptr: nat
    var num: nat
    ghost var chains: seq<seq<nat>>
    ghost var place: map<nat, (nat, nat)>
    ghost var keys: seq<seq<K>>
    /** Every slot ever taken from a block, in order. */
    ghost var handed: seq<nat>

    ghost predicate Valid()
      reads this
    {
      && block > 0 && |chains| == heads <= |nodes|
      && AllLinked(zero, nodes, chains)
      && Placed(chains, place)
      && AllKeysMatch(nodes, chains, keys)
      && PoolFree(zero, nodes, place, ptr, num)
      && (num > 0 ==> heads <= ptr)
      && HandedOnce(handed, heads, |nodes|, ptr, num)
    }

    /** All buckets empty: each static head is its own blank end. */
    constructor (zero: K, block: nat, heads: nat)
      requires block > 0
      ensures Valid() && this.heads == heads && handed == []
      ensures |keys| == heads && forall h :: 0 <= h < heads ==> keys[h] == []
      ensures Named(nodes)
    {
      this.zero, this.block, this.heads := zero, block, heads;
      nodes := seq(heads, _ => Node(zero, None, None));
      ptr, num := 0, 0;
      chains := seq(heads, h => [h]);
      place := map h | 0 <= h < heads :: (h, 0);
      keys := seq(heads, _ => []);
      handed := [];
    }

    /** A new block of blank nodes. */
    method NewBlock()
      requires Valid() && num == 0
      modifies this`nodes, this`ptr, this`num
      ensures Valid() && num > 0
      ensures nodes == old(nodes) + seq(block, _ => Node(zero, None, None))
    {
      num := block;
      ptr := |nodes|;
      ghost var more := seq(block, _ => Node(zero, None, None));
      GrowKeeps(zero, nodes, chains, keys, more);
      nodes := nodes + seq(block, _ => Node(zero, None, None));
    }

    /** `newhnamemem`: the next slot of the block, after a new block if none is left. */
    method NewNode() returns (p: nat)
      requires Valid()
      modifies this`nodes, this`ptr, this`num, this`handed
      ensures Valid()
      ensures p < |nodes| && nodes[p] == Node(zero, None, None) && p !in place
      ensures p !in old(handed) && handed == old(handed) + [p] && !(ptr <= p < ptr + num)
      ensures |old(nodes)| <= |nodes| && nodes[..|old(nodes)|] == old(nodes)
      ensures forall a :: |old(nodes)| <= a < |nodes| ==> nodes[a].nxt == None
    {
      if num == 0 {
        NewBlock();
      }
      HandNext(handed, heads, |nodes|, ptr, num);
      TakeSlot(zero, nodes, place, ptr, num);
      num := num - 1;
      p := ptr;
      ptr := ptr + 1;
      handed := handed + [p];
    }

    /** Fill the blank end `p` of bucket `h` and link the fresh node `q` behind it. */
    method Append(h: nat, p: nat, q: nat, key: K, name: Option<string>)
      requires Valid() && h < heads && p == chains[h][|chains[h]| - 1]
      requires q < |nodes| && nodes[q] == Node(zero, None, None) && q !in place && !(ptr <= q < ptr + num)
      modifies this`nodes, this`chains, this`place, this`keys
      ensures Valid()
      ensures keys == old(keys)[h := old(keys)[h] + [key]]
      ensures chains == old(chains)[h := old(chains)[h] + [q]]
      ensures p < |old(nodes)| && nodes == old(nodes)[p := Node(key, name, Some(q))]
    {
      assert Linked(zero, nodes, chains[h], h);
      var filled := Node(key, name, Some(q));
      InsertKeeps(zero, nodes, chains, place, keys, ptr, num, h, q, filled);
      nodes := nodes[p := filled];
      place := place[q := (h, |chains[h]|)];
      chains := chains[h := chains[h] + [q]];
      keys := keys[h := keys[h] + [key]];
    }

    /** A new entry: the blank end of bucket `h` becomes occupied, with a fresh blank end behind it. */
    method FillEnd(h: nat, p: nat, key: K, name: Option<string>)
      requires Valid() && h < heads && p == chains[h][|chains[h]| - 1]
      modifies this
      ensures Valid() && old(handed) <= handed
      ensures keys == old(keys)[h := old(keys)[h] + [key]]
      ensures p < |nodes| && nodes[p].nxt.Some? && nodes[p].name == name
      ensures key !in old(keys)[h] ==> KeptAt(chains, keys, h, key, p)
      ensures Grew(old(chains), old(keys), chains, keys)
      ensures OnlyAdds(old(nodes), nodes, p)
    {
      assert Linked(zero, nodes, chains[h], h) && KeysMatch(nodes, chains[h], keys[h]);
      var q := NewNode();
      AppendGrows(chains, keys, h, q, key);
      Append(h, p, q, key, name);
    }

    /** The search loop: the first node with the key, or the blank end of the chain. */
    method Find(h: nat, key: K) returns (p: nat)
      requires Valid() && h < heads
      ensures p < |nodes|
      ensures nodes[p].nxt.Some? <==> key in keys[h]
      ensures key in keys[h] ==> KeptAt(chains, keys, h, key, p)
      ensures key !in keys[h] ==> p == chains[h][|chains[h]| - 1]
    {
      assert Linked(zero, nodes, chains[h], h) && KeysMatch(nodes, chains[h], keys[h]);
      p := h;
      ghost var k: nat := 0;
      while nodes[p].nxt.Some?
        invariant k < |chains[h]| && p == chains[h][k] < |nodes|
        invariant nodes[p].nxt == if k < |chains[h]| - 1 then Some(chains[h][k + 1]) else None
        invariant forall j :: 0 <= j < k ==> keys[h][j] != key
        decreases |chains[h]| - k
      {
        if nodes[p].key == key {
          return;
        }
        p := nodes[p].nxt.value;
        k := k + 1;
      }
    }

    /**
      `lookup_emem`, `lookup_bytestring` and the loops of the name functions:
      the first node of bucket `h` with the key, after appending one if there
      is none.  No occupied node changes, and no slot is handed out again.
    */
    method Lookup(h: nat, key: K) returns (p: nat)
      requires Valid() && h < heads
      modifies this
      ensures Valid() && old(handed) <= handed
      ensures keys == if key in old(keys)[h] then old(keys) else old(keys)[h := old(keys)[h] + [key]]
      ensures p < |nodes| && nodes[p].nxt.Some? && KeptAt(chains, keys, h, key, p)
      ensures key !in old(keys)[h] ==> nodes[p].name == None
      ensures Grew(old(chains), old(keys), chains, keys)
      ensures OnlyAdds(old(nodes), nodes, p)
    {
      p := Find(h, key);
      if nodes[p].nxt.None? {
        FillEnd(h, p, key, None);
      }
    }

    /** Store a name in the node of a key. */
    method SetName(h: nat, key: K, p: nat, text: string)
      requires Valid() && h < heads && p < |nodes| && KeptAt(chains, keys, h, key, p) && nodes[p].nxt.Some?
      modifies this`nodes
      ensures Valid() && nodes == old(nodes)[p := old(nodes)[p].(name := Some(text))]
      ensures Holds(nodes, chains, keys, h, key, text)
    {
      assert KeysMatch(nodes, chains[h], keys[h]);
      RenameKeeps(zero, nodes, chains, place, keys, h, FirstIndex(keys[h], key), Some(text));
      assert p in place;
      nodes := nodes[p := nodes[p].(name := Some(text))];
    }

    /** The name of the node just looked up: the cached one, else `text`, which is then kept. */
    method NameNode(h: nat, key: K, p: nat, text: string, ghost before: seq<Node<K>>) returns (s: string)
      requires Valid() && h < heads && p < |nodes| && KeptAt(chains, keys, h, key, p) && nodes[p].nxt.Some?
      requires OnlyAdds(before, nodes, p)
      modifies this`nodes
      ensures Valid() && Holds(nodes, chains, keys, h, key, s)
      ensures s == if old(nodes[p].name).Some? then old(nodes[p].name).value else text
      ensures NamesKept(before, nodes) && (Named(before) ==> Named(nodes))
    {
      if nodes[p].name.Some? {
        AddingKeeps(before, nodes, p);
        s := nodes[p].name.value;
      } else {
        NamingKeeps(before, nodes, p, text);
        SetName(h, key, p, text);
        s := text;
      }
    }

    /** The name kept for a key: the cached one, else `text`, which is then kept. */
    method Name(h: nat, key: K, text: string) returns (s: string)
      requires Valid() && h < heads
      modifies this
      ensures Valid() && old(handed) <= handed
      ensures keys == if key in old(keys)[h] then old(keys) else old(keys)[h := old(keys)[h] + [key]]
      ensures Grew(old(chains), old(keys), chains, keys)
      ensures Holds(nodes, chains, keys, h, key, s)
      ensures key !in old(keys)[h] ==> s == text
      ensures NamesKept(old(nodes), nodes) && (old(Named(nodes)) ==> Named(nodes))
    {
      var p := Lookup(h, key);
      s := NameNode(h, key, p, text, old(nodes));
    }

    /** The walk of `init_servarray`: the first node without a name is the blank end. */
    method FindNameless(h: nat) returns (p: nat)
      requires Valid() && Named(nodes) && h < heads
      ensures p < |nodes| && p == chains[h][|chains[h]| - 1]
    {
      assert Linked(zero, nodes, chains[h], h);
      p := h;
      ghost var k: nat := 0;
      while nodes[p].name.Some?
        invariant k < |chains[h]| && p == chains[h][k] < |nodes|
        invariant nodes[p].nxt == if k < |chains[h]| - 1 then Some(chains[h][k + 1]) else None
        decreases |chains[h]| - k
      {
        p := nodes[p].nxt.value;
        k := k + 1;
      }
    }

    /** `init_servarray`: fill the first nameless node, even if the key is there already. */
    method AddService(h: nat, key: K, name: string)
      requires Valid() && Named(nodes) && h < heads
      modifies this
      ensures Valid() && Named(nodes) && old(handed) <= handed
      ensures keys == old(keys)[h := old(keys)[h] + [key]]
      ensures key !in old(keys)[h] ==> Holds(nodes, chains, keys, h, key, name)
      ensures Grew(old(chains), old(keys), chains, keys)
      ensures NamesKept(old(nodes), nodes)
    {
      var p := FindNameless(h);
      FillEnd(h, p, key, Some(name));
      AddingKeeps(old(nodes), nodes, p);
    }

    /**
      Any sequence of lookups, each in the bucket its key hashes to: two of them
      return the same node exactly when they ask for the same key, the keys of a
      chain stay pairwise distinct and at home, no occupied node changes and no
      slot is handed out again.
    */
    method RunLookups(hash: K -> nat, asks: seq<K>) returns (found: seq<nat>)
      requires Valid() && Homed(hash, keys)
      requires forall i :: 0 <= i < |asks| ==> hash(asks[i]) < heads
      modifies this
      ensures Valid() && Homed(hash, keys) && old(handed) <= handed
      ensures OccupiedKept(old(nodes), nodes)
      ensures |found| == |asks|
      ensures forall i :: 0 <= i < |asks| ==> StoredIn(nodes, place, hash(asks[i]), asks[i], found[i])
      ensures forall i, j :: 0 <= i < |asks| && 0 <= j < |asks| ==> (found[i] == found[j] <==> asks[i] == asks[j])
    {
      found := [];
      for n := 0 to |asks|
        invariant Valid() && Homed(hash, keys) && old(handed) <= handed
        invariant OccupiedKept(old(nodes), nodes)
        invariant |found| == n && AllFound(chains, keys, hash, asks, found)
      {
        ghost var nodes0, chains0, keys0 := nodes, chains, keys;
        var p := Lookup(hash(asks[n]), asks[n]);
        HomedStep(hash, keys0, asks[n]);
        FoundStep(chains0, keys0, chains, keys, hash, asks, found, p);
        KeptOn(old(nodes), nodes0, nodes, p);
        found := found + [p];
      }
      FoundApart(chains, keys, place, hash, asks, found);
      forall i | 0 <= i < |asks|
        ensures StoredIn(nodes, place, hash(asks[i]), asks[i], found[i])
      {
        KeptIsStored(nodes, chains, keys, place, hash(asks[i]), asks[i], found[i]);
      }
    }

    /** One operation of a run: the tables go on caching, and the answer is what they cache. */
    method Perform(op: Op<K>, ghost cache: map<(nat, K), string>) returns (s: string)
      requires Valid() && Named(nodes) && (!op.Fixed? ==> op.h < heads)
      requires Caches(nodes, chains, keys, cache)
      modifies this
      ensures Valid() && Named(nodes) && old(handed) <= handed && NamesKept(old(nodes), nodes)
      ensures Caches(nodes, chains, keys, Entered(cache, op))
      ensures !op.Service? ==> s == AnswerOf(Entered(cache, op), op)
    {
      ghost var nodes0, chains0, keys0 := nodes, chains, keys;
      match op
      case Ask(h, key, text) =>
        s := Name(h, key, text);
        CacheStep(nodes0, chains0, keys0, nodes, chains, keys, cache, op);
        assert Holds(nodes, chains, keys, h, key, Entered(cache, op)[(h, key)]);
      case Service(h, key, text) =>
        AddService(h, key, text);
        CacheStep(nodes0, chains0, keys0, nodes, chains, keys, cache, op);
        s := text;
      case Fixed(text) =>
        s := text;
    }

    /** The `n`th operation of a run. */
    method PerformNext(ops: seq<Op<K>>, n: nat) returns (s: string)
      requires Valid() && Named(nodes) && n < |ops| && (!ops[n].Fixed? ==> ops[n].h < heads)
      requires Caches(nodes, chains, keys, CacheAfter(ops, n))
      modifies this
      ensures Valid() && Named(nodes) && old(handed) <= handed && NamesKept(old(nodes), nodes)
      ensures Caches(nodes, chains, keys, CacheAfter(ops, n + 1))
      ensures !ops[n].Service? ==> s == Answer(ops, n)
    {
      s := Perform(ops[n], CacheAfter(ops, n));
    }

    /**
      Any mix of lookups that name their node, entries from the services file
      and answers that need no table, from empty tables: every answer is that of
      a map in which the first text of a bucket and key stays.  Names once given
      stay, and no slot is handed out again.
    */
    method RunNames(ops: seq<Op<K>>) returns (names: seq<string>)
      requires Valid() && Named(nodes) && forall h :: 0 <= h < |keys| ==> keys[h] == []
      requires forall i :: 0 <= i < |ops| ==> ops[i].Fixed? || ops[i].h < heads
      modifies this
      ensures Valid() && Named(nodes) && old(handed) <= handed && NamesKept(old(nodes), nodes)
      ensures |names| == |ops|
      ensures forall j :: 0 <= j < |ops| && !ops[j].Service? ==> names[j] == Answer(ops, j)
    {
      names := [];
      CachesNothing(nodes, chains, keys);
      for n := 0 to |ops|
        invariant Valid() && Named(nodes) && old(handed) <= handed && NamesKept(old(nodes), nodes)
        invariant Caches(nodes, chains, keys, CacheAfter(ops, n))
        invariant |names| == n && forall j :: 0 <= j < n && !ops[j].Service? ==> names[j] == Answer(ops, j)
      {
        ghost var nodes0 := nodes;
        var s := PerformNext(ops, n);
        NamesKeptOn(old(nodes), nodes0, nodes);
        names := names + [s];
      }
    }
  }

  lemma CachesNothing<K>(nodes: seq<Node<K>>, chains: seq<seq<nat>>, keys: seq<seq<K>>)
    requires forall h :: 0 <= h < |keys| ==> keys[h] == []
    ensures Caches(nodes, chains, keys, map[])
  {}

  lemma KeptOn<K>(nodes: seq<Node<K>>, nodes': seq<Node<K>>, nodes'': seq<Node<K>>, p: nat)
    requires OccupiedKept(nodes, nodes') && OnlyAdds(nodes', nodes'', p)
    ensures OccupiedKept(nodes, nodes'')
  {}

  lemma NamesKeptOn<K>(nodes: seq<Node<K>>, nodes': seq<Node<K>>, nodes'': seq<Node<K>>)
    requires NamesKept(nodes, nodes') && NamesKept(nodes', nodes'')
    ensures NamesKept(nodes, nodes'')
  {}

  /** Node `p` is in the chain of bucket `h` and stores the key. */
  ghost predicate StoredIn<K>(nodes: seq<Node<K>>, place: map<nat, (nat, nat)>, h: nat, key: K, p: nat)
  {
    p < |nodes| && nodes[p].key == key && p in place && place[p].0 == h
  }

  lemma KeptIsStored<K>(nodes: seq<Node<K>>, chains: seq<seq<nat>>, keys: seq<seq<K>>, place: map<nat, (nat, nat)>,
                        h: nat, key: K, p: nat)
    requires Placed(chains, place) && AllKeysMatch(nodes, chains, keys) && KeptAt(chains, keys, h, key, p)
    ensures StoredIn(nodes, place, h, key, p)
  {
    assert KeysMatch(nodes, chains[h], keys[h]);
    var k := FirstIndex(keys[h], key);
    assert p == chains[h][k] && keys[h][k] == key;
  }

  lemma FoundApart<K>(chains: seq<seq<nat>>, keys: seq<seq<K>>, place: map<nat, (nat, nat)>,
                      hash: K -> nat, asks: seq<K>, found: seq<nat>)
    requires Placed(chains, place) && AllFound(chains, keys, hash, asks, found)
    ensures forall i, j :: 0 <= i < |found| && 0 <= j < |found| ==> (found[i] == found[j] <==> asks[i] == asks[j])
  {
    forall i, j | 0 <= i < |found| && 0 <= j < |found|
      ensures found[i] == found[j] <==> asks[i] == asks[j]
    {
      NodesApart(chains, keys, place, hash(asks[i]), asks[i], found[i], hash(asks[j]), asks[j], found[j]);
    }
  }

  // ----- the tables as a map from bucket and key to the first text

  /**
    An operation: a lookup that names its node, a services entry, or a call
    that answers without the tables.
  */
  datatype Op<+K> = Ask(h: nat, key: K, text: string) | Service(h: nat, key: K, text: string) | Fixed(text: string)

  /** The map after an operation: a new entry is kept, an old one stays. */
  ghost function Entered<K>(cache: map<(nat, K), string>, op: Op<K>): (cache': map<(nat, K), string>)
    ensures !op.Fixed? ==> (op.h, op.key) in cache'
  {
    if op.Fixed? || (op.h, op.key) in cache then cache else cache[(op.h, op.key) := op.text]
  }

  /** The map after the first `n` operations of a run. */
  ghost function CacheAfter<K>(ops: seq<Op<K>>, n: nat): (cache: map<(nat, K), string>)
    requires n <= |ops|
  {
    if n == 0 then map[] else Entered(CacheAfter(ops, n - 1), ops[n - 1])
  }

  ghost function AnswerOf<K>(cache: map<(nat, K), string>, op: Op<K>): (s: string)
    requires !op.Fixed? ==> (op.h, op.key) in cache
  {
    if op.Fixed? then op.text else cache[(op.h, op.key)]
  }

  /** The answer to the `j`th operation of a run. */
  ghost function Answer<K>(ops: seq<Op<K>>, j: nat): (s: string)
    requires j < |ops|
  {
    AnswerOf(CacheAfter(ops, j + 1), ops[j])
  }

  ghost predicate SameEntry<K>(a: Op<K>, b: Op<K>)
  {
    !a.Fixed? && !b.Fixed? && a.h == b.h && a.key == b.key
  }

  /** No operation before the `i`th is on its bucket and key. */
  ghost predicate IsFirst<K>(ops: seq<Op<K>>, i: nat)
    requires i < |ops|
  {
    forall k :: 0 <= k < i ==> !SameEntry(ops[k], ops[i])
  }

  /** What no operation has brought is not in the map. */
  lemma {:induction false} NotBrought<K>(ops: seq<Op<K>>, n: nat, op: Op<K>)
    requires n <= |ops| && !op.Fixed? && forall k :: 0 <= k < n ==> !SameEntry(ops[k], op)
    ensures (op.h, op.key) !in CacheAfter(ops, n)
  {
    if n > 0 {
      NotBrought(ops, n - 1, op);
      assert !SameEntry(ops[n - 1], op);
    }
  }

  /** The first text of an entry is the answer to every later operation on it. */
  lemma {:induction false} FirstWins<K>(ops: seq<Op<K>>, i: nat, j: nat)
    requires i <= j < |ops| && IsFirst(ops, i) && !ops[i].Fixed?
    ensures var e := (ops[i].h, ops[i].key);
            e in CacheAfter(ops, j + 1) && CacheAfter(ops, j + 1)[e] == ops[i].text
    ensures SameEntry(ops[i], ops[j]) ==> Answer(ops, j) == ops[i].text
    decreases j
  {
    if i == j {
      NotBrought(ops, i, ops[i]);
    } else {
      FirstWins(ops, i, j - 1);
    }
  }

  /** The first node of bucket `h` with the key has the name `s`. */
  ghost predicate Holds<K>(nodes: seq<Node<K>>, chains: seq<seq<nat>>, keys: seq<seq<K>>, h: nat, key: K, s: string)
  {
    && h < |keys| && key in keys[h] && h < |chains| && FirstIndex(keys[h], key) < |chains[h]|
    && var p := chains[h][FirstIndex(keys[h], key)];
       p < |nodes| && nodes[p].nxt.Some? && nodes[p].name == Some(s)
  }

  /** The tables hold exactly the entries of the map, under their names. */
  ghost predicate Caches<K>(nodes: seq<Node<K>>, chains: seq<seq<nat>>, keys: seq<seq<K>>, cache: map<(nat, K), string>)
  {
    && (forall e :: e in cache ==> Holds(nodes, chains, keys, e.0, e.1, cache[e]))
    && AllIn(keys, cache)
  }

  lemma HoldsLater<K>(nodes: seq<Node<K>>, chains: seq<seq<nat>>, keys: seq<seq<K>>,
                      nodes': seq<Node<K>>, chains': seq<seq<nat>>, keys': seq<seq<K>>, h: nat, x: K, s: string)
    requires Holds(nodes, chains, keys, h, x, s)
    requires Grew(chains, keys, chains', keys') && NamesKept(nodes, nodes')
    ensures Holds(nodes', chains', keys', h, x, s)
  {
    StaysPut(chains, keys, chains', keys', h, x, chains[h][FirstIndex(keys[h], x)]);
  }

  lemma CacheStep<K>(nodes: seq<Node<K>>, chains: seq<seq<nat>>, keys: seq<seq<K>>,
                     nodes': seq<Node<K>>, chains': seq<seq<nat>>, keys': seq<seq<K>>,
                     cache: map<(nat, K), string>, op: Op<K>)
    requires Caches(nodes, chains, keys, cache) && !op.Fixed? && op.h < |keys|
    requires Grew(chains, keys, chains', keys') && NamesKept(nodes, nodes')
    requires keys' == keys[op.h := keys[op.h] + [op.key]] || (keys' == keys && op.key in keys[op.h])
    requires op.key !in keys[op.h] ==> Holds(nodes', chains', keys', op.h, op.key, op.text)
    ensures Caches(nodes', chains', keys', Entered(cache, op))
  {
    forall e | e in Entered(cache, op)
      ensures Holds(nodes', chains', keys', e.0, e.1, Entered(cache, op)[e])
    {
      if e in cache {
        HoldsLater(nodes, chains, keys, nodes', chains', keys', e.0, e.1, cache[e]);
      }
    }
    AllEntered(keys, keys', cache, op);
  }

  ghost predicate AllIn<K>(keys: seq<seq<K>>, cache: map<(nat, K), string>)
  {
    forall h, k :: 0 <= h < |keys| && 0 <= k < |keys[h]| ==> (h, keys[h][k]) in cache
  }

  lemma AllEntered<K>(keys: seq<seq<K>>, keys': seq<seq<K>>, cache: map<(nat, K), string>, op: Op<K>)
    requires AllIn(keys, cache) && !op.Fixed? && op.h < |keys|
    requires keys' == keys[op.h := keys[op.h] + [op.key]] || (keys' == keys && op.key in keys[op.h])
    ensures AllIn(keys', Entered(cache, op))
  {
    forall h, k | 0 <= h < |keys'| && 0 <= k < |keys'[h]|
      ensures (h, keys'[h][k]) in Entered(cache, op)
    {
      if k < |keys[h]| {
        assert keys'[h][k] == keys[h][k];
      }
    }
  }

  /** Keys sit in the bucket they hash to, and no bucket holds a key twice. */
  ghost predicate Homed<K>(hash: K -> nat, keys: seq<seq<K>>)
  {
    && (forall h, k :: 0 <= h < |keys| && 0 <= k < |keys[h]| ==> hash(keys[h][k]) == h)
    && (forall h, j, k :: 0 <= h < |keys| && 0 <= j < k < |keys[h]| ==> keys[h][j] != keys[h][k])
  }

  lemma HomedStep<K>(hash: K -> nat, keys: seq<seq<K>>, key: K)
    requires Homed(hash, keys) && hash(key) < |keys|
    ensures var h := hash(key);
            Homed(hash, if key in keys[h] then keys else keys[h := keys[h] + [key]])
  {}
}
