/** The static cache of src/cache.c, loaded once from the local record file: a multimap from names to
    address lists over an array and a hash table. */
module StaticCache {
  import opened Options
  import H = HashTable

  // ----- the abstract multimap -----

  type Multimap = map<string, seq<nat>>

  datatype Entry = Entry(name: string, ip: nat)

  /** A known name gets one more address; a new name is refused when all `size` entries are taken. */
  function Insert(m: Multimap, size: nat, e: Entry): Multimap {
    if e.name in m then m[e.name := m[e.name] + [e.ip]]
    else if |m| == size then m
    else m[e.name := [e.ip]]
  }

  function Load(size: nat, entries: seq<Entry>): Multimap {
    if entries == [] then map[] else Insert(Load(size, entries[..|entries| - 1]), size, entries[|entries| - 1])
  }

  /** The addresses given for a name, in order. */
  function AddressesOf(entries: seq<Entry>, name: string): seq<nat> {
    if entries == [] then []
    else
      var e := entries[|entries| - 1];
      AddressesOf(entries[..|entries| - 1], name) + if e.name == name then [e.ip] else []
  }

  lemma {:induction false} AddressesOfConcat(a: seq<Entry>, b: seq<Entry>, name: string)
    ensures AddressesOf(a + b, name) == AddressesOf(a, name) + AddressesOf(b, name)
  {
    if b == [] {
      assert a + b == a;
    } else {
      assert (a + b)[..|a + b| - 1] == a + b[..|b| - 1];
      AddressesOfConcat(a, b[..|b| - 1], name);
    }
  }

  lemma AddressesOfOne(e: Entry, name: string)
    ensures AddressesOf([e], name) == if e.name == name then [e.ip] else []
  {
    assert [e][..0] == [];
  }

  /** After any sequence of inserts, a lookup of a stored name returns every address given for it, in
      insertion order; and a name that was given but is not stored was refused by a full cache. */
  lemma {:induction false} LookupAfterInserts(size: nat, entries: seq<Entry>, name: string)
    ensures var m := Load(size, entries);
            && |m| <= size
            && (name in m ==> m[name] == AddressesOf(entries, name) && m[name] != [])
            && (name !in m && AddressesOf(entries, name) != [] ==> |m| == size)
  {
    if entries != [] {
      var e := entries[|entries| - 1];
      LookupAfterInserts(size, entries[..|entries| - 1], name);
      LookupAfterInserts(size, entries[..|entries| - 1], e.name);
    }
  }

  // ----- the implementation -----

  /** One static_record_data with the addresses of its chain. */
  datatype Slot = Slot(name: string, ips: seq<nat>)

  function Comparator(slots: seq<Slot>): (int, string) --> bool {
    (i: int, name: string) requires 0 <= i < |slots| => slots[i].name == name
  }

  /** The first `top` slots carry distinct names, and the hash table indexes exactly them. */
  ghost predicate Indexed(slots: seq<Slot>, top: int, buckets: H.Buckets<int>, hash: string -> nat, keys: map<int, string>, index: map<string, int>) {
    && 0 <= top <= |slots| && |index| == top
    && (forall i :: i in keys <==> 0 <= i < top)
    && (forall i :: i in keys ==> keys[i] == slots[i].name && keys[i] in index && index[keys[i]] == i)
    && H.Refines(buckets, hash, keys, index)
  }

  ghost predicate InRange(slots: seq<Slot>, index: map<string, int>) {
    forall name :: name in index ==> 0 <= index[name] < |slots|
  }

  ghost function View(slots: seq<Slot>, index: map<string, int>): (m: Multimap)
    requires InRange(slots, index)
    ensures m.Keys == index.Keys && |m| == |index|
    ensures forall name :: name in index ==> m[name] == slots[index[name]].ips
  {
    var m := map name | name in index :: slots[index[name]].ips;
    assert m.Keys == index.Keys;
    m
  }

  lemma IndexInRange(slots: seq<Slot>, top: int, buckets: H.Buckets<int>, hash: string -> nat, keys: map<int, string>, index: map<string, int>)
    requires Indexed(slots, top, buckets, hash, keys, index)
    ensures InRange(slots, index) && H.Decides(Comparator(slots), keys)
    ensures forall name :: name in index ==> slots[index[name]].name == name && index[name] < top
  {
  }

  /** An address appended to a known name's chain. */
  lemma AfterAppend(slots: seq<Slot>, top: int, buckets: H.Buckets<int>, hash: string -> nat, keys: map<int, string>, index: map<string, int>,
                    name: string, ip: nat)
    requires Indexed(slots, top, buckets, hash, keys, index) && name in index && InRange(slots, index)
    ensures var slots' := slots[index[name] := slots[index[name]].(ips := slots[index[name]].ips + [ip])];
            && Indexed(slots', top, buckets, hash, keys, index)
            && View(slots', index) == View(slots, index)[name := View(slots, index)[name] + [ip]]
  {
    hide H.Refines;
    var slots' := slots[index[name] := slots[index[name]].(ips := slots[index[name]].ips + [ip])];
    forall n | n in index && n != name ensures index[n] != index[name] {
      IndexInRange(slots, top, buckets, hash, keys, index);
    }
  }

  /** Writing the next slot disturbs neither the index nor the comparator. */
  lemma BeforeInsert(slots: seq<Slot>, top: int, buckets: H.Buckets<int>, hash: string -> nat, keys: map<int, string>, index: map<string, int>,
                     name: string, ip: nat)
    requires Indexed(slots, top, buckets, hash, keys, index) && top < |slots|
    ensures H.Refines(buckets, hash, keys, index) && H.Decides(Comparator(slots[top := Slot(name, [ip])]), keys)
  {
    hide H.Refines;
  }

  lemma GrowsByOne(index: map<string, int>, name: string, slot: int)
    requires name !in index
    ensures |index[name := slot]| == |index| + 1
  {
    assert index[name := slot].Keys == index.Keys + {name};
  }

  lemma ViewAfterInsert(slots: seq<Slot>, index: map<string, int>, name: string, ip: nat, top: nat)
    requires InRange(slots, index) && top < |slots| && name !in index
    requires forall n :: n in index ==> index[n] < top
    ensures var slots', index' := slots[top := Slot(name, [ip])], index[name := top];
            InRange(slots', index') && View(slots', index') == View(slots, index)[name := [ip]]
  {
  }

  /** A new name written to the next slot and registered in the hash table. */
  lemma AfterInsert(slots: seq<Slot>, top: int, buckets: H.Buckets<int>, hash: string -> nat, keys: map<int, string>, index: map<string, int>,
                    name: string, ip: nat, compare: (int, string) --> bool, at: nat)
    requires Indexed(slots, top, buckets, hash, keys, index) && name !in index && top < |slots|
    requires H.Decides(compare, keys)
    requires var chain := buckets[hash(name) % |buckets|];
             H.Comparable(chain, compare, name) && H.FirstMatch(chain, compare, name, at)
    ensures var p := hash(name) % |buckets|;
            Indexed(slots[top := Slot(name, [ip])], top + 1, buckets[p := H.Put(buckets[p], at, Some(top))], hash, keys[top := name], index[name := top])
  {
    hide H.Refines, H.FirstMatch, H.Comparable, H.Decides, H.Put;
    IndexInRange(slots, top, buckets, hash, keys, index);
    H.SetAgrees(buckets, hash, keys, index, compare, name, top, at);
    GrowsByOne(index, name, top);
  }

  class Cache {
    const size: nat
    const data: array<Slot>
    const table: H.Table<string, int>
    var top: int
    ghost var keys: map<int, string>
    ghost var index: map<string, int>

    ghost predicate Valid()
      reads this, data, table, table.Repr
    {
      && data.Length == size + 2 && 0 <= top <= size
      && table.Valid()
      && Indexed(data[..], top, table.buckets, table.hash, keys, index)
      && InRange(data[..], index)
    }

    ghost function Contents(): Multimap
      reads this, data
      requires InRange(data[..], index)
    {
      View(data[..], index)
    }

    constructor (size: nat, tableSize: nat, hash: string -> nat)
      requires tableSize > 0
      ensures Valid() && Contents() == map[] && this.size == size
      ensures fresh(data) && fresh(table) && fresh(table.Repr)
    {
      this.size := size;
      data := new Slot[size + 2](_ => Slot("", []));
      table := new H.Table<string, int>(tableSize, hash);
      top, keys, index := 0, map[], map[];
      new;
      H.EmptyRefines(tableSize, hash, keys);
    }

    /** get_static_cache: the slot of a name. */
    method Find(name: string) returns (slot: Option<int>)
      requires Valid()
      ensures slot == if name in index then Some(index[name]) else None
    {
      hide H.Linked;
      IndexInRange(data[..], top, table.buckets, table.hash, keys, index);
      var compare := Comparator(data[..]);
      H.LookupAgrees(table.buckets, table.hash, keys, index, compare, name);
      var node, found, at := table.Get(compare, name);
      slot := if found then node.record else None;
    }

    /** A lookup as its callers use it: the whole address chain of the name. */
    method Get(name: string) returns (r: Option<seq<nat>>)
      requires Valid()
      ensures r == if name in Contents() then Some(Contents()[name]) else None
    {
      hide Indexed, H.Table.Valid;
      var slot := Find(name);
      r := if slot.Some? then Some(data[slot.value].ips) else None;
    }

    /** set_static_cache.  The result is true only when a new entry was made: it is false both for an address
        appended to a known name and for a refused one. */
    method Set(name: string, ip: nat) returns (added: bool)
      requires Valid()
      modifies this, data, table, table.Repr
      ensures Valid() && fresh(table.Repr - old(table.Repr))
      ensures Contents() == Insert(old(Contents()), size, Entry(name, ip))
      ensures added <==> name !in old(Contents()) && |old(Contents())| < size
    {
      hide InRange, H.Refines, H.Linked, View, H.Table.Valid;
      var slot := Find(name);
      if slot.Some? {
        AppendAddress(slot.value, name, ip);
        return false;
      }
      if top == size {
        return false;
      }
      Register(name, ip);
      return true;
    }

    /** The repeated-name branch: one more address at the end of the chain. */
    method AppendAddress(slot: int, name: string, ip: nat)
      requires Valid() && name in index && slot == index[name]
      modifies data
      ensures Valid() && Contents() == old(Contents())[name := old(Contents())[name] + [ip]]
    {
      hide Indexed, H.Table.Valid, View;
      ghost var slots := data[..];
      AfterAppend(slots, top, table.buckets, table.hash, keys, index, name, ip);
      data[slot] := data[slot].(ips := data[slot].ips + [ip]);
      assert data[..] == slots[slot := slots[slot].(ips := slots[slot].ips + [ip])];
    }

    /** The new-entry branch: write data[top] and make its hash node. */
    method Register(name: string, ip: nat)
      requires Valid() && name !in index && top < size
      modifies this, data, table, table.Repr
      ensures Valid() && fresh(table.Repr - old(table.Repr))
      ensures Contents() == old(Contents())[name := [ip]]
    {
      hide Indexed, InRange, View, H.Refines, H.FirstMatch, H.Comparable, H.Decides, H.Linked, H.Table.Valid, H.Put, Comparator;
      ghost var slots, buckets, slots' := data[..], table.buckets, data[..][top := Slot(name, [ip])];
      IndexInRange(slots, top, buckets, table.hash, keys, index);
      BeforeInsert(slots, top, buckets, table.hash, keys, index, name, ip);
      ViewAfterInsert(slots, index, name, ip, top);
      data[top] := Slot(name, [ip]);
      assert data[..] == slots';
      ghost var at := Enter(Comparator(data[..]), name);
      AfterInsert(slots, top, buckets, table.hash, keys, index, name, ip, Comparator(slots'), at);
      keys, index := keys[top := name], index[name := top];
      top := top + 1;
      assert data[..] == slots' && Indexed(slots', top, table.buckets, table.hash, keys, index);
    }

    /** The set_hashnode call for the entry at `top`. */
    method Enter(compare: (int, string) --> bool, name: string) returns (ghost at: nat)
      requires table.Valid() && H.Refines(table.buckets, table.hash, keys, index) && H.Decides(compare, keys)
      modifies table, table.Repr
      ensures table.Valid() && fresh(table.Repr - old(table.Repr)) && |old(table.buckets)| > 0
      ensures var buckets, p := old(table.buckets), table.hash(name) % |old(table.buckets)|;
              && H.Comparable(buckets[p], compare, name) && H.FirstMatch(buckets[p], compare, name, at)
              && table.buckets == buckets[p := H.Put(buckets[p], at, Some(top))]
    {
      H.LookupAgrees(table.buckets, table.hash, keys, index, compare, name);
      hide H.Refines, H.FirstMatch, H.Comparable, H.Decides, H.Linked, H.Put;
      var node, exist;
      node, exist, at := table.Set(compare, name, Some(top));
    }

    /** Loading a whole list of records builds the abstract multimap. */
    method LoadAll(entries: seq<Entry>)
      requires Valid() && Contents() == map[]
      modifies this, data, table, table.Repr
      ensures Valid() && Contents() == Load(size, entries)
    {
      hide Indexed, H.Table.Valid, View, Insert;
      assert entries[..0] == [];
      for i := 0 to |entries|
        invariant Valid() && fresh(table.Repr - old(table.Repr))
        invariant Contents() == Load(size, entries[..i])
      {
        assert entries[..i + 1][..i] == entries[..i];
        var added := Set(entries[i].name, entries[i].ip);
      }
      assert entries[..|entries|] == entries;
    }
  }
}
