/** The chained hash table of src/hash.c.  Each bucket is a sentinel head followed by a linked chain.
    The records are compared with keys by a caller-supplied comparator, so the table itself knows only
    sequences of records per bucket; `Refines` relates those to a finite map from keys to records. */
module HashTable {
  import opened Options
  import opened Sequences

  /** One hashnode.  A NULL record is None; `bucket` is the chain the node was made for. */
  class Node<R> {
    var next: Node?<R>
    var record: Option<R>
    ghost const bucket: nat

    constructor (record: Option<R>, ghost bucket: nat)
      ensures next == null && this.record == record && this.bucket == bucket
    {
      next := null;
      this.record := record;
      this.bucket := bucket;
    }
  }

  type Chain<!R> = seq<Option<R>>
  type Buckets<!R> = seq<Chain<R>>

  ghost function Successor<R>(nodes: seq<Node<R>>, i: nat): Node?<R>
    requires i < |nodes|
  {
    if i + 1 < |nodes| then nodes[i + 1] else null
  }

  /** `nodes` is a linked chain: a sentinel without a record, then the nodes of `chain` in order. */
  ghost predicate Linked<R>(nodes: seq<Node<R>>, chain: Chain<R>, bucket: nat)
    reads nodes
  {
    && |nodes| == |chain| + 1
    && (forall i :: 0 <= i < |nodes| ==> nodes[i].bucket == bucket)
    && Separate(nodes)
    && (forall i {:trigger nodes[i].next} :: 0 <= i < |nodes| ==> nodes[i].next == Successor(nodes, i))
    && (forall i :: 0 < i < |nodes| ==> nodes[i].record == chain[i - 1])
    && nodes[0].record == None
  }

  /** The comparator may be applied to every record of the chain. */
  ghost predicate Comparable<R, K>(chain: Chain<R>, compare: (R, K) --> bool, key: K) {
    forall i :: 0 <= i < |chain| ==> chain[i].Some? && compare.requires(chain[i].value, key)
  }

  /** `at` is the position of the first record of the chain that matches, or its length when none does. */
  ghost predicate FirstMatch<R, K>(chain: Chain<R>, compare: (R, K) --> bool, key: K, at: nat)
    requires Comparable(chain, compare, key)
  {
    && at <= |chain|
    && (forall i :: 0 <= i < at ==> !compare(chain[i].value, key))
    && (at < |chain| ==> compare(chain[at].value, key))
  }

  /** Link a new last node to a chain. */
  method LinkTail<R>(tail: Node<R>, node: Node<R>, ghost nodes: seq<Node<R>>, ghost chain: Chain<R>, ghost bucket: nat)
    requires Linked(nodes, chain, bucket) && tail == nodes[|chain|]
    requires node !in nodes && node.next == null && node.bucket == bucket
    modifies tail`next
    ensures Linked(nodes + [node], chain + [node.record], bucket)
  {
    tail.next := node;
  }

  /** Unlink the node at position at + 1 of a chain, where `last` is the node before it. */
  method CutLink<R>(last: Node<R>, node: Node<R>, ghost nodes: seq<Node<R>>, ghost chain: Chain<R>, ghost bucket: nat, ghost at: nat)
    requires Linked(nodes, chain, bucket) && at < |chain| && last == nodes[at] && node == nodes[at + 1]
    modifies last`next
    ensures Linked(Without(nodes, at + 1), Without(chain, at), bucket)
  {
    hide Separate, Successor;
    ghost var nodes' := Without(nodes, at + 1);
    CutNodes(nodes, at + 1);
    assert node.next == Successor(nodes, at + 1);
    last.next := node.next;
    forall i | 0 <= i < |nodes'| ensures nodes'[i].next == Successor(nodes', i) {
      CutSuccessor(nodes, at + 1, i);
      assert old(nodes[After(at, i)].next) == Successor(nodes, After(at, i));
    }
    forall i | 0 < i < |nodes'| ensures nodes'[i].record == Without(chain, at)[i - 1] {
      assert nodes[After(at, i)].record == chain[After(at, i) - 1];
    }
  }

  ghost predicate Separate<R>(nodes: seq<Node<R>>) {
    forall i, j :: 0 <= i < j < |nodes| ==> nodes[i] != nodes[j]
  }

  /** Where the i-th node stood before the one at position at + 1 was cut out. */
  function After(at: nat, i: nat): nat { if i <= at then i else i + 1 }

  lemma CutNodes<R>(nodes: seq<Node<R>>, k: nat)
    requires 0 < k < |nodes| && Separate(nodes)
    ensures Separate(Without(nodes, k)) && Without(nodes, k)[0] == nodes[0]
    ensures forall i :: 0 <= i < |nodes| - 1 ==>
              Without(nodes, k)[i] == nodes[After(k - 1, i)] && (Without(nodes, k)[i] == nodes[k - 1] <==> i == k - 1)
  {
  }

  lemma CutSuccessor<R>(nodes: seq<Node<R>>, k: nat, i: nat)
    requires 0 < k < |nodes| && i < |nodes| - 1
    ensures Successor(Without(nodes, k), i) == Successor(nodes, if i == k - 1 then k else After(k - 1, i))
  {
  }

  class Table<K(!new), R> {
    const size: nat
    const hash: K -> nat
    const heads: seq<Node<R>>
    ghost var chains: seq<seq<Node<R>>>
    ghost var buckets: Buckets<R>
    ghost var Repr: set<Node<R>>

    ghost predicate Valid()
      reads this, Repr
    {
      && size > 0
      && |heads| == |chains| == |buckets| == size
      && (forall b :: 0 <= b < size ==> chains[b] != [] && chains[b][0] == heads[b])
      && (forall b, i :: 0 <= b < size && 0 <= i < |chains[b]| ==> chains[b][i] in Repr)
      && (forall b :: 0 <= b < size ==> Linked(chains[b], buckets[b], b))
    }

    function Pos(key: K): (b: nat)
      requires size > 0
      ensures b < size
    {
      hash(key) % size
    }

    constructor (size: nat, hash: K -> nat)
      requires size > 0
      ensures Valid() && fresh(Repr)
      ensures this.size == size && this.hash == hash
      ensures buckets == seq(size, _ => [])
    {
      this.size := size;
      this.hash := hash;
      var nodes: seq<Node<R>> := [];
      ghost var repr: set<Node<R>> := {};
      while |nodes| < size
        invariant |nodes| <= size && fresh(repr)
        invariant forall b :: 0 <= b < |nodes| ==> nodes[b] in repr && nodes[b].bucket == b
        invariant forall b :: 0 <= b < |nodes| ==> nodes[b].next == null && nodes[b].record == None
      {
        var node := new Node<R>(None, |nodes|);
        nodes := nodes + [node];
        repr := repr + {node};
      }
      heads := nodes;
      chains := seq(size, b requires 0 <= b < size => [nodes[b]]);
      buckets := seq(size, _ => []);
      Repr := repr;
    }

    /** get_hashnode: the matching node, or the last node of the chain.  The process stop on a sentinel
        that holds a record is never reached. */
    method Get(compare: (R, K) --> bool, key: K) returns (node: Node<R>, found: bool, ghost at: nat)
      requires Valid() && Comparable(buckets[Pos(key)], compare, key)
      ensures FirstMatch(buckets[Pos(key)], compare, key, at)
      ensures found <==> at < |buckets[Pos(key)]|
      ensures node == chains[Pos(key)][if found then at + 1 else at]
      ensures found ==> node.record == buckets[Pos(key)][at]
      ensures node.next == Successor(chains[Pos(key)], if found then at + 1 else at)
    {
      var pos := Pos(key);
      node := heads[pos];
      assert Linked(chains[pos], buckets[pos], pos);
      assert node.record == None;
      at := 0;
      while node.next != null
        invariant at <= |buckets[pos]| && node == chains[pos][at]
        invariant forall i :: 0 <= i < at ==> !compare(buckets[pos][i].value, key)
        decreases |buckets[pos]| - at
      {
        node := node.next;
        assert node == chains[pos][at + 1];
        if compare(node.record.value, key) {
          return node, true, at;
        }
        at := at + 1;
      }
      return node, false, at;
    }

    /** The caller's `node->record = r` on a node that Set returned. */
    method Assign(node: Node<R>, record: R, ghost pos: nat, ghost at: nat)
      requires Valid() && pos < size && at < |buckets[pos]| && node == chains[pos][at + 1]
      modifies this`buckets, node`record
      ensures Valid() && node.record == Some(record)
      ensures buckets == old(buckets)[pos := old(buckets)[pos][at := Some(record)]]
    {
      assert Linked(chains[pos], buckets[pos], pos);
      node.record := Some(record);
      buckets := buckets[pos := buckets[pos][at := Some(record)]];
      forall b | 0 <= b < size && b != pos ensures Linked(chains[b], buckets[b], b) {
        assert old(Linked(chains[b], buckets[b], b));
        assert node !in chains[b];
      }
    }

    /** The append branch of set_hashnode. */
    method Append(tail: Node<R>, record: Option<R>, ghost pos: nat) returns (node: Node<R>)
      requires Valid() && pos < size && tail == chains[pos][|buckets[pos]|]
      modifies this`chains, this`buckets, this`Repr, tail`next
      ensures Valid() && Repr == old(Repr) + {node} && fresh(node)
      ensures chains == old(chains)[pos := old(chains)[pos] + [node]]
      ensures buckets == old(buckets)[pos := old(buckets)[pos] + [record]]
      ensures node.record == record
    {
      assert Linked(chains[pos], buckets[pos], pos);
      node := new Node(record, pos);
      LinkTail(tail, node, chains[pos], buckets[pos], pos);
      chains := chains[pos := chains[pos] + [node]];
      buckets := buckets[pos := buckets[pos] + [record]];
      Repr := Repr + {node};
      forall b | 0 <= b < size && b != pos ensures Linked(chains[b], buckets[b], b) {
        assert old(Linked(chains[b], buckets[b], b));
        assert tail !in chains[b];
      }
    }

    /** set_hashnode: overwrite the matching node's record unless the new one is NULL, or append a node. */
    method Set(compare: (R, K) --> bool, key: K, record: Option<R>) returns (node: Node<R>, exist: bool, ghost at: nat)
      requires Valid() && Comparable(buckets[Pos(key)], compare, key)
      modifies this, Repr
      ensures Valid() && fresh(Repr - old(Repr))
      ensures FirstMatch(old(buckets)[Pos(key)], compare, key, at)
      ensures exist <==> at < |old(buckets)[Pos(key)]|
      ensures buckets == old(buckets)[Pos(key) := Put(old(buckets)[Pos(key)], at, record)]
      ensures at < |buckets[Pos(key)]| && node == chains[Pos(key)][at + 1] && node in Repr
      ensures node.record == buckets[Pos(key)][at]
    {
      node, exist, at := Get(compare, key);
      if !exist {
        node := Append(node, record, Pos(key));
      } else if record.Some? {
        Assign(node, record.value, Pos(key), at);
      }
    }

    /** The unlinking branch of reset_hash_node: `node` is at position at + 1 of its chain, after `last`. */
    method Unlink(last: Node<R>, node: Node<R>, ghost pos: nat, ghost at: nat)
      requires Valid() && pos < size && at < |buckets[pos]|
      requires last == chains[pos][at] && node == chains[pos][at + 1]
      modifies this`chains, this`buckets, last`next
      ensures Valid()
      ensures buckets == old(buckets)[pos := Cut(old(buckets)[pos], at)]
    {
      assert Linked(chains[pos], buckets[pos], pos);
      CutLink(last, node, chains[pos], buckets[pos], pos, at);
      chains := chains[pos := Without(chains[pos], at + 1)];
      buckets := buckets[pos := Cut(buckets[pos], at)];
      forall b | 0 <= b < size && b != pos ensures Linked(chains[b], buckets[b], b) {
        assert old(Linked(chains[b], buckets[b], b));
        assert last !in chains[b];
      }
    }

    /** reset_hash_node: unlink the first matching node. */
    method Reset(compare: (R, K) --> bool, key: K) returns (removed: bool, ghost at: nat)
      requires Valid() && Comparable(buckets[Pos(key)], compare, key)
      modifies this, Repr
      ensures Valid() && Repr == old(Repr)
      ensures FirstMatch(old(buckets)[Pos(key)], compare, key, at)
      ensures removed <==> at < |old(buckets)[Pos(key)]|
      ensures buckets == old(buckets)[Pos(key) := Cut(old(buckets)[Pos(key)], at)]
    {
      var pos := Pos(key);
      var node := heads[pos];
      assert Linked(chains[pos], buckets[pos], pos);
      at := 0;
      while node.next != null
        invariant at <= |buckets[pos]| && node == chains[pos][at]
        invariant forall i :: 0 <= i < at ==> !compare(buckets[pos][i].value, key)
        decreases |buckets[pos]| - at
      {
        var last := node;
        node := node.next;
        assert node == chains[pos][at + 1];
        if compare(node.record.value, key) {
          Unlink(last, node, pos, at);
          return true, at;
        }
        at := at + 1;
      }
      return false, at;
    }
  }

  lemma SizeOf<K(!new), R>(table: Table<K, R>)
    requires table.Valid()
    ensures table.size == |table.buckets| > 0
  {
  }

  /** What a comparator that can stop the process does with a record. */
  datatype Verdict = Same | Different | Halt

  /** `at` is the position of the first record that does not just differ, or the length when all do. */
  ghost predicate FirstDecision<R, K>(chain: Chain<R>, verdict: (R, K) -> Verdict, key: K, at: nat) {
    && at <= |chain|
    && (forall i :: 0 <= i < |chain| ==> chain[i].Some?)
    && (forall i :: 0 <= i < at ==> verdict(chain[i].value, key) == Different)
    && (at < |chain| ==> verdict(chain[at].value, key) != Different)
  }

  /** reset_hash_node with a comparator that can stop the process; a stop leaves the table as it is. */
  method ResetOrStop<K(!new), R>(table: Table<K, R>, verdict: (R, K) -> Verdict, key: K) returns (stopped: bool, ghost at: nat)
    requires table.Valid() && forall i :: 0 <= i < |table.buckets[table.Pos(key)]| ==> table.buckets[table.Pos(key)][i].Some?
    modifies table, table.Repr
    ensures table.Valid() && table.Repr == old(table.Repr)
    ensures FirstDecision(old(table.buckets)[table.Pos(key)], verdict, key, at)
    ensures var chain := old(table.buckets)[table.Pos(key)];
            && (stopped <==> at < |chain| && verdict(chain[at].value, key) == Halt)
            && table.buckets == if stopped then old(table.buckets) else old(table.buckets)[table.Pos(key) := Cut(chain, at)]
  {
    var pos := table.Pos(key);
    var node := table.heads[pos];
    assert Linked(table.chains[pos], table.buckets[pos], pos);
    at := 0;
    while node.next != null
      invariant at <= |table.buckets[pos]| && node == table.chains[pos][at]
      invariant forall i :: 0 <= i < at ==> verdict(table.buckets[pos][i].value, key) == Different
      decreases |table.buckets[pos]| - at
    {
      var last := node;
      node := node.next;
      assert node == table.chains[pos][at + 1];
      match verdict(node.record.value, key)
      case Halt =>
        return true, at;
      case Same =>
        table.Unlink(last, node, pos, at);
        return false, at;
      case Different =>
        at := at + 1;
    }
    return false, at;
  }

  function Put<R>(chain: Chain<R>, at: nat, record: Option<R>): Chain<R>
    requires at <= |chain|
  {
    if at == |chain| then chain + [record] else if record.None? then chain else chain[at := record]
  }

  function Cut<R>(chain: Chain<R>, at: nat): Chain<R>
    requires at <= |chain|
  {
    if at == |chain| then chain else Without(chain, at)
  }

  // ----- refinement of a finite map -----

  ghost predicate Holds<K, R>(m: Buckets<R>, hash: K -> nat, keys: map<R, K>, index: map<K, R>, b: nat, i: nat)
    requires b < |m| && i < |m[b]|
  {
    && m[b][i].Some?
    && m[b][i].value in keys
    && var k := keys[m[b][i].value];
       k in index && index[k] == m[b][i].value && hash(k) % |m| == b
  }

  /** The buckets represent the finite map `index`, where `keys` tells which key a stored record carries:
      every node holds the record of its own key in the right bucket, every key has a node, and no chain
      holds a record twice. */
  ghost predicate Refines<K, R>(m: Buckets<R>, hash: K -> nat, keys: map<R, K>, index: map<K, R>) {
    && |m| > 0
    && (forall b, i :: 0 <= b < |m| && 0 <= i < |m[b]| ==> Holds(m, hash, keys, index, b, i))
    && (forall k :: k in index ==> index[k] in keys && keys[index[k]] == k && Some(index[k]) in m[hash(k) % |m|])
    && (forall b, i, j :: 0 <= b < |m| && 0 <= i < j < |m[b]| ==> m[b][i] != m[b][j])
  }

  /** The comparator decides key equality on the records of `keys`. */
  ghost predicate Decides<K(!new), R>(compare: (R, K) --> bool, keys: map<R, K>) {
    forall r, k :: r in keys ==> compare.requires(r, k) && (compare(r, k) <==> keys[r] == k)
  }

  lemma EmptyRefines<K, R>(size: nat, hash: K -> nat, keys: map<R, K>)
    requires size > 0
    ensures Refines(seq(size, _ => []), hash, keys, map[])
  {
  }

  /** A search finds a node exactly when the map has the key, and then the map's own record; and the
      comparator is only ever applied to records it accepts. */
  lemma LookupAgrees<K(!new), R>(m: Buckets<R>, hash: K -> nat, keys: map<R, K>, index: map<K, R>, compare: (R, K) --> bool, key: K)
    requires Refines(m, hash, keys, index) && Decides(compare, keys)
    ensures var chain := m[hash(key) % |m|];
            && Comparable(chain, compare, key)
            && forall at: nat :: FirstMatch(chain, compare, key, at) ==>
                 && (at < |chain| <==> key in index)
                 && (key in index ==> chain[at] == Some(index[key]))
  {
    var b := hash(key) % |m|;
    var chain := m[b];
    forall i | 0 <= i < |chain| ensures chain[i].Some? && compare.requires(chain[i].value, key) {
      assert Holds(m, hash, keys, index, b, i);
    }
    forall at: nat | FirstMatch(chain, compare, key, at)
      ensures at < |chain| ==> key in index && chain[at] == Some(index[key])
      ensures key in index ==> at < |chain|
    {
      if at < |chain| {
        assert Holds(m, hash, keys, index, b, at);
      }
    }
  }

  /** Setting a key to a record not stored under another key updates the map at that key only. */
  lemma SetKeepsOthers<K(!new), R>(m: Buckets<R>, hash: K -> nat, keys: map<R, K>, index: map<K, R>, compare: (R, K) --> bool,
                                   key: K, r: R, at: nat)
    requires Refines(m, hash, keys, index) && Decides(compare, keys)
    requires Comparable(m[hash(key) % |m|], compare, key) && FirstMatch(m[hash(key) % |m|], compare, key, at)
    requires forall k :: k in index && k != key ==> index[k] != r
    ensures Refines(m[hash(key) % |m| := Put(m[hash(key) % |m|], at, Some(r))], hash, keys[r := key], index[key := r])
  {
    var p := hash(key) % |m|;
    LookupAgrees(m, hash, keys, index, compare, key);
    var chain := Put(m[p], at, Some(r));
    var m', keys', index' := m[p := chain], keys[r := key], index[key := r];
    forall b, i | 0 <= b < |m'| && 0 <= i < |m'[b]| ensures Holds(m', hash, keys', index', b, i) {
      if b != p || i != at {
        assert Holds(m, hash, keys, index, b, i);
        if b == p && at < |m[p]| {
          assert m[p][i] != m[p][at];
        }
      }
    }
    forall k | k in index' ensures index'[k] in keys' && keys'[index'[k]] == k && Some(index'[k]) in m'[hash(k) % |m|] {
      if k == key {
        assert chain[at] == Some(r);
      } else {
        var b := hash(k) % |m|;
        var i :| 0 <= i < |m[b]| && m[b][i] == Some(index[k]);
        assert m'[b][i] == m[b][i];
      }
    }
    forall i | 0 <= i < |chain| && i != at ensures chain[i] != Some(r) {
      assert Holds(m, hash, keys, index, p, i);
    }
  }

  /** set_hashnode is map update exactly when the record is not stored under another key. */
  lemma SetAgrees<K(!new), R>(m: Buckets<R>, hash: K -> nat, keys: map<R, K>, index: map<K, R>, compare: (R, K) --> bool,
                              key: K, r: R, at: nat)
    requires Refines(m, hash, keys, index) && Decides(compare, keys)
    requires Comparable(m[hash(key) % |m|], compare, key) && FirstMatch(m[hash(key) % |m|], compare, key, at)
    ensures Refines(m[hash(key) % |m| := Put(m[hash(key) % |m|], at, Some(r))], hash, keys[r := key], index[key := r])
            <==> forall k :: k in index && k != key ==> index[k] != r
  {
    if forall k :: k in index && k != key ==> index[k] != r {
      SetKeepsOthers(m, hash, keys, index, compare, key, r, at);
    } else {
      hide Put;
      var k :| k in index && k != key && index[k] == r;
      assert k in index[key := r];
    }
  }

  /** Resetting a key removes that key and nothing else. */
  lemma ResetAgrees<K(!new), R>(m: Buckets<R>, hash: K -> nat, keys: map<R, K>, index: map<K, R>, compare: (R, K) --> bool,
                                key: K, at: nat)
    requires Refines(m, hash, keys, index) && Decides(compare, keys)
    requires Comparable(m[hash(key) % |m|], compare, key) && FirstMatch(m[hash(key) % |m|], compare, key, at)
    ensures Refines(m[hash(key) % |m| := Cut(m[hash(key) % |m|], at)], hash, keys, index - {key})
  {
    var p := hash(key) % |m|;
    LookupAgrees(m, hash, keys, index, compare, key);
    if at < |m[p]| {
      var chain := Without(m[p], at);
      var m', index' := m[p := chain], index - {key};
      forall b, i | 0 <= b < |m'| && 0 <= i < |m'[b]| ensures Holds(m', hash, keys, index', b, i) {
        var j := if b != p || i < at then i else i + 1;
        assert Holds(m, hash, keys, index, b, j);
        assert m'[b][i] == m[b][j];
        if b == p {
          assert m[p][j] != m[p][at];
        }
      }
      forall k | k in index' ensures Some(index'[k]) in m'[hash(k) % |m|] {
        var b := hash(k) % |m|;
        var i :| 0 <= i < |m[b]| && m[b][i] == Some(index[k]);
        if b == p {
          assert i != at;
          assert chain[if i < at then i else i - 1] == m[b][i];
        }
      }
    } else {
      assert index - {key} == index;
      assert m[p := m[p]] == m;
    }
  }

  /** Refines only looks at the keys of records the map stores. */
  lemma RefinesSameKeys<K, R>(m: Buckets<R>, hash: K -> nat, keys: map<R, K>, keys': map<R, K>, index: map<K, R>)
    requires Refines(m, hash, keys, index)
    requires forall k :: k in index ==> index[k] in keys' && keys'[index[k]] == keys[index[k]]
    ensures Refines(m, hash, keys', index)
  {
    forall b, i | 0 <= b < |m| && 0 <= i < |m[b]| ensures Holds(m, hash, keys', index, b, i) {
      assert Holds(m, hash, keys, index, b, i);
    }
  }

  // ----- the table's operations as map operations -----

  /** get_hashnode is map lookup, for any hash and any comparator that decides key equality. */
  method MapGet<K(!new), R>(table: Table<K, R>, compare: (R, K) --> bool, key: K, ghost keys: map<R, K>, ghost index: map<K, R>)
    returns (r: Option<R>)
    requires table.Valid() && Refines(table.buckets, table.hash, keys, index) && Decides(compare, keys)
    ensures r == if key in index then Some(index[key]) else None
  {
    LookupAgrees(table.buckets, table.hash, keys, index, compare, key);
    hide Refines, Decides, Linked;
    var node, found, at := table.Get(compare, key);
    r := if found then node.record else None;
  }

  /** set_hashnode is map update exactly when the record is not stored under another key. */
  method MapSet<K(!new), R>(table: Table<K, R>, compare: (R, K) --> bool, key: K, r: R, ghost keys: map<R, K>, ghost index: map<K, R>)
    returns (existed: bool)
    requires table.Valid() && Refines(table.buckets, table.hash, keys, index) && Decides(compare, keys)
    modifies table, table.Repr
    ensures table.Valid() && fresh(table.Repr - old(table.Repr)) && (existed <==> key in index)
    ensures Refines(table.buckets, table.hash, keys[r := key], index[key := r])
            <==> forall k :: k in index && k != key ==> index[k] != r
  {
    LookupAgrees(table.buckets, table.hash, keys, index, compare, key);
    hide Refines, Decides, Linked, Put;
    ghost var buckets := table.buckets;
    var node, exist, at := table.Set(compare, key, Some(r));
    SetAgrees(buckets, table.hash, keys, index, compare, key, r, at);
    existed := exist;
  }

  /** reset_hash_node is map removal: that key goes and every other key keeps its record. */
  method MapReset<K(!new), R>(table: Table<K, R>, compare: (R, K) --> bool, key: K, ghost keys: map<R, K>, ghost index: map<K, R>)
    returns (removed: bool)
    requires table.Valid() && Refines(table.buckets, table.hash, keys, index) && Decides(compare, keys)
    modifies table, table.Repr
    ensures table.Valid() && Refines(table.buckets, table.hash, keys, index - {key}) && (removed <==> key in index)
  {
    LookupAgrees(table.buckets, table.hash, keys, index, compare, key);
    hide Refines, Decides, Linked, Cut;
    ghost var buckets := table.buckets;
    var gone, at := table.Reset(compare, key);
    ResetAgrees(buckets, table.hash, keys, index, compare, key, at);
    removed := gone;
  }
}
