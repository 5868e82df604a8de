/**
 * The inode table of the mount: a two-way map between inode numbers and object keys. File keys
 * and directory prefixes (which end in `/`) share one key space.
 */
module Inode {
  import opened Prelude

  const ROOT_INODE: nat := 1

  datatype NodeKind = Dir | File

  datatype Node = Node(key: string, kind: NodeKind, parent: nat)

  /** The contents of a table as a value. */
  datatype Table = Table(nodes: map<nat, Node>, byKey: map<string, nat>, next: nat)

  /** Live inodes and keys correspond one to one, below the next free number, with the root live. */
  ghost predicate Bijection(t: Table) {
    && (forall i :: i in t.nodes ==> t.nodes[i].key in t.byKey && t.byKey[t.nodes[i].key] == i)
    && (forall k :: k in t.byKey ==> t.byKey[k] in t.nodes && t.nodes[t.byKey[k]].key == k)
    && (forall i :: i in t.nodes ==> 0 < i < t.next)
    && ROOT_INODE in t.nodes
  }

  function NewTable(rootKey: string): Table {
    Table(map[ROOT_INODE := Node(rootKey, Dir, ROOT_INODE)], map[rootKey := ROOT_INODE], ROOT_INODE + 1)
  }

  function Intern(t: Table, key: string, kind: NodeKind, parent: nat): Table {
    if key in t.byKey then t
    else Table(t.nodes[t.next := Node(key, kind, parent)], t.byKey[key := t.next], t.next + 1)
  }

  function Forget(t: Table, ino: nat): Table {
    if ino !in t.nodes then t
    else t.(nodes := t.nodes - {ino}, byKey := t.byKey - {t.nodes[ino].key})
  }

  /** Points `ino` at `newKey`, dropping the reverse entry of `oldKey`. */
  function Repoint(t: Table, ino: nat, oldKey: string, newKey: string): Table {
    t.(nodes := if ino in t.nodes then t.nodes[ino := t.nodes[ino].(key := newKey)] else t.nodes,
       byKey := (t.byKey - {oldKey})[newKey := ino])
  }

  function Rekey(t: Table, ino: nat, newKey: string): Table {
    if ino in t.nodes then Repoint(t, ino, t.nodes[ino].key, newKey) else t
  }

  predicate Under(key: string, prefix: string) {
    prefix <= key
  }

  /** `key` with its leading `oldPrefix` replaced. */
  function Reprefix(key: string, oldPrefix: string, newPrefix: string): string
    requires Under(key, oldPrefix)
  {
    newPrefix + key[|oldPrefix|..]
  }

  lemma ReprefixInjective(a: string, b: string, oldPrefix: string, newPrefix: string)
    requires Under(a, oldPrefix) && Under(b, oldPrefix)
    requires Reprefix(a, oldPrefix, newPrefix) == Reprefix(b, oldPrefix, newPrefix)
    ensures a == b
  {
    assert a == oldPrefix + a[|oldPrefix|..] && b == oldPrefix + b[|oldPrefix|..];
    assert Reprefix(a, oldPrefix, newPrefix)[|newPrefix|..] == a[|oldPrefix|..];
    assert Reprefix(b, oldPrefix, newPrefix)[|newPrefix|..] == b[|oldPrefix|..];
  }

  ghost function Affected(t: Table, oldPrefix: string): set<nat> {
    set i | i in t.nodes && Under(t.nodes[i].key, oldPrefix)
  }

  /** `order` lists the affected inodes once each, in the map's arbitrary iteration order. */
  ghost predicate Enumerates(order: seq<nat>, t: Table, oldPrefix: string) {
    NoDup(order) && Elems(order) == Affected(t, oldPrefix)
  }

  /** The table after the inodes of `order` were rekeyed one by one, with keys captured up front. */
  ghost function RekeyAll(t: Table, order: seq<nat>, oldPrefix: string, newPrefix: string): Table
    requires Elems(order) <= Affected(t, oldPrefix)
  {
    if order == [] then t
    else
      var ino, done := order[|order| - 1], order[..|order| - 1];
      assert ino in Elems(order) && Elems(done) <= Elems(order);
      var key := t.nodes[ino].key;
      Repoint(RekeyAll(t, done, oldPrefix, newPrefix), ino, key, Reprefix(key, oldPrefix, newPrefix))
  }

  lemma RekeyAllSnoc(t: Table, done: seq<nat>, ino: nat, oldPrefix: string, newPrefix: string)
    requires NoDup(done) && ino !in Elems(done) && Elems(done) + {ino} <= Affected(t, oldPrefix)
    ensures NoDup(done + [ino]) && Elems(done + [ino]) == Elems(done) + {ino}
    ensures RekeyAll(t, done + [ino], oldPrefix, newPrefix) == Repoint(
      RekeyAll(t, done, oldPrefix, newPrefix), ino,
      t.nodes[ino].key, Reprefix(t.nodes[ino].key, oldPrefix, newPrefix))
  {
    NoDupSnoc(done, ino);
  }

  // ----- single operations -----

  lemma NewTableBijection(rootKey: string)
    ensures Bijection(NewTable(rootKey))
  {
  }

  lemma InternKeeps(t: Table, key: string, kind: NodeKind, parent: nat)
    requires Bijection(t)
    ensures var u := Intern(t, key, kind, parent);
      && Bijection(u) && key in u.byKey
      && (key in t.byKey ==> u == t)
      && (key !in t.byKey ==> u.byKey[key] == t.next && t.next !in t.nodes)
  {
  }

  /** Forgetting keeps the correspondence exactly when the root is not the one forgotten. */
  lemma ForgetKeeps(t: Table, ino: nat)
    requires Bijection(t)
    ensures Bijection(Forget(t, ino)) <==> ino != ROOT_INODE
  {
  }

  /** A rekey keeps the correspondence exactly when no other inode holds the new key. */
  lemma RekeyKeeps(t: Table, ino: nat, newKey: string)
    requires Bijection(t)
    ensures Bijection(Rekey(t, ino, newKey)) <==>
      (ino in t.nodes && newKey in t.byKey ==> t.byKey[newKey] == ino)
  {
    var u := Rekey(t, ino, newKey);
    if ino in t.nodes && newKey in t.byKey && t.byKey[newKey] != ino {
      var other := t.byKey[newKey];
      assert u.nodes[other].key == newKey == u.nodes[ino].key;
    }
  }

  /** Keys other than these look up as before, and inodes other than `ino` are as before. */
  ghost predicate RestKept(u: Table, t: Table, ino: nat, keys: set<string>) {
    && (forall i :: i != ino ==> (i in u.nodes <==> i in t.nodes) && (i in u.nodes ==> u.nodes[i] == t.nodes[i]))
    && (forall k :: k !in keys ==> (k in u.byKey <==> k in t.byKey) && (k in u.byKey ==> u.byKey[k] == t.byKey[k]))
  }

  /** A new key's inode has the next number and the given kind and parent; nothing else changes. */
  lemma InternedNode(t: Table, key: string, kind: NodeKind, parent: nat)
    requires key !in t.byKey
    ensures var u := Intern(t, key, kind, parent);
      && t.next in u.nodes && u.nodes[t.next] == Node(key, kind, parent)
      && key in u.byKey && u.byKey[key] == t.next && u.next == t.next + 1
      && RestKept(u, t, t.next, {key})
  {
  }

  /** A forgotten inode is gone with its key; nothing else changes, and its number is not free again. */
  lemma ForgottenNode(t: Table, ino: nat)
    requires ino in t.nodes
    ensures var u := Forget(t, ino);
      && ino !in u.nodes && t.nodes[ino].key !in u.byKey && u.next == t.next
      && RestKept(u, t, ino, {t.nodes[ino].key})
  {
  }

  /** A rekeyed inode keeps number, kind and parent; its new key leads to it and its old one nowhere. */
  lemma RekeyedNode(t: Table, ino: nat, newKey: string)
    requires ino in t.nodes
    ensures var u := Rekey(t, ino, newKey);
      && ino in u.nodes && u.nodes[ino] == Node(newKey, t.nodes[ino].kind, t.nodes[ino].parent)
      && newKey in u.byKey && u.byKey[newKey] == ino && u.next == t.next
      && (t.nodes[ino].key != newKey ==> t.nodes[ino].key !in u.byKey)
      && RestKept(u, t, ino, {newKey, t.nodes[ino].key})
  {
  }

  // ----- rekeying a whole prefix -----

  /** No affected inode's new key is the key of some other inode. */
  ghost predicate NoClash(t: Table, oldPrefix: string, newPrefix: string) {
    forall i :: i in t.nodes && Under(t.nodes[i].key, oldPrefix) ==>
      var newKey := Reprefix(t.nodes[i].key, oldPrefix, newPrefix);
      newKey == t.nodes[i].key || newKey !in t.byKey
  }

  /** No interned key lies under the new prefix, so in particular the prefixes do not overlap on keys. */
  lemma FreshTargetNoClash(t: Table, oldPrefix: string, newPrefix: string)
    requires forall k :: k in t.byKey ==> !Under(k, newPrefix)
    ensures NoClash(t, oldPrefix, newPrefix)
  {
    forall i | i in t.nodes && Under(t.nodes[i].key, oldPrefix)
      ensures Reprefix(t.nodes[i].key, oldPrefix, newPrefix) !in t.byKey
    {
      assert Under(Reprefix(t.nodes[i].key, oldPrefix, newPrefix), newPrefix);
    }
  }

  /** The new nodes: exactly prefix substitution on the inodes already visited. */
  lemma {:induction false} RekeyAllNodes(t: Table, order: seq<nat>, oldPrefix: string, newPrefix: string)
    requires NoDup(order) && Elems(order) <= Affected(t, oldPrefix)
    ensures var u := RekeyAll(t, order, oldPrefix, newPrefix);
      && u.nodes.Keys == t.nodes.Keys && u.next == t.next
      && (forall i :: i in t.nodes && i !in order ==> u.nodes[i] == t.nodes[i])
      && (forall i :: i in Affected(t, oldPrefix) && i in order ==>
            u.nodes[i] == t.nodes[i].(key := Reprefix(t.nodes[i].key, oldPrefix, newPrefix)))
  {
    if order != [] {
      var ino, done := order[|order| - 1], order[..|order| - 1];
      assert ino in Elems(order) && Elems(done) <= Elems(order);
      RekeyAllNodes(t, done, oldPrefix, newPrefix);
      assert forall i :: i in order <==> i in done || i == ino;
    }
  }

  /** Without a clash every step of the bulk rekey keeps the correspondence, in any order. */
  lemma {:induction false} RekeyAllKeeps(t: Table, order: seq<nat>, oldPrefix: string, newPrefix: string)
    requires Bijection(t) && NoClash(t, oldPrefix, newPrefix)
    requires NoDup(order) && Elems(order) <= Affected(t, oldPrefix)
    ensures Bijection(RekeyAll(t, order, oldPrefix, newPrefix))
  {
    if order != [] {
      var ino, done := order[|order| - 1], order[..|order| - 1];
      assert ino in Elems(order) && Elems(done) <= Elems(order);
      assert ino !in done;
      RekeyAllKeeps(t, done, oldPrefix, newPrefix);
      RekeyAllNodes(t, done, oldPrefix, newPrefix);
      var u := RekeyAll(t, done, oldPrefix, newPrefix);
      var newKey := Reprefix(t.nodes[ino].key, oldPrefix, newPrefix);
      if newKey in u.byKey && u.byKey[newKey] != ino {
        var other := u.byKey[newKey];
        if other in done {
          assert other in Elems(done);
          ReprefixInjective(t.nodes[other].key, t.nodes[ino].key, oldPrefix, newPrefix);
          assert false;
        } else {
          assert false;
        }
      }
      RekeyKeeps(u, ino, newKey);
    }
  }

  /** Two inodes that end on one key are not in correspondence. */
  lemma ClashWithUnaffected(t: Table, order: seq<nat>, i: nat, other: nat, oldPrefix: string, newPrefix: string)
    requires Bijection(t) && Enumerates(order, t, oldPrefix)
    requires i in Affected(t, oldPrefix) && other in t.nodes && other !in Affected(t, oldPrefix)
    requires t.nodes[other].key == Reprefix(t.nodes[i].key, oldPrefix, newPrefix)
    ensures !Bijection(RekeyAll(t, order, oldPrefix, newPrefix))
  {
    RekeyAllNodes(t, order, oldPrefix, newPrefix);
    assert i in Elems(order) && other !in Elems(order);
    var u := RekeyAll(t, order, oldPrefix, newPrefix);
    assert u.nodes[i].key == u.nodes[other].key;
  }

  /** Visiting `i` first and the holder of its new key second loses the reverse entry of `i`. */
  lemma {:induction false} LostEntry(t: Table, rest: seq<nat>, i: nat, other: nat, oldPrefix: string, newPrefix: string)
    requires Bijection(t) && i != other && i in Affected(t, oldPrefix) && other in t.nodes
    requires NoDup([i, other] + rest) && Elems([i, other] + rest) <= Affected(t, oldPrefix)
    requires t.nodes[other].key == Reprefix(t.nodes[i].key, oldPrefix, newPrefix)
    ensures var u := RekeyAll(t, [i, other] + rest, oldPrefix, newPrefix);
      u.nodes.Keys == t.nodes.Keys && u.nodes[i].key == t.nodes[other].key && t.nodes[other].key !in u.byKey
  {
    var order := [i, other] + rest;
    assert order[0] == i && order[1] == other;
    assert i in Elems(order) && other in Elems(order);
    RekeyAllNodes(t, order, oldPrefix, newPrefix);
    var lost := t.nodes[other].key;
    if rest == [] {
      assert order[..1] == [i] && order[..1][..0] == [];
      var key := t.nodes[other].key;
      if Reprefix(key, oldPrefix, newPrefix) == lost {
        ReprefixInjective(key, t.nodes[i].key, oldPrefix, newPrefix);
      }
    } else {
      var last := rest[|rest| - 1];
      assert order[..|order| - 1] == [i, other] + rest[..|rest| - 1];
      assert order[|order| - 1] == last && last in Elems(order);
      assert Elems(order[..|order| - 1]) <= Elems(order);
      LostEntry(t, rest[..|rest| - 1], i, other, oldPrefix, newPrefix);
      assert last != i;
      if Reprefix(t.nodes[last].key, oldPrefix, newPrefix) == lost {
        ReprefixInjective(t.nodes[last].key, t.nodes[i].key, oldPrefix, newPrefix);
      }
    }
  }

  lemma Listing<T>(s: set<T>) returns (order: seq<T>)
    ensures NoDup(order) && Elems(order) == s
  {
    order := [];
    if s != {} {
      var x :| x in s;
      order := Listing(s - {x});
      NoDupSnoc(order, x);
      order := order + [x];
    }
  }

  /**
   * The bulk rekey keeps inodes and keys in correspondence for every iteration order exactly
   * when no affected inode's new key already belongs to another inode.
   */
  lemma RekeyPrefixKeepsIff(t: Table, oldPrefix: string, newPrefix: string)
    requires Bijection(t)
    ensures NoClash(t, oldPrefix, newPrefix) <==>
      forall order :: Enumerates(order, t, oldPrefix) ==> Bijection(RekeyAll(t, order, oldPrefix, newPrefix))
  {
    if NoClash(t, oldPrefix, newPrefix) {
      forall order | Enumerates(order, t, oldPrefix)
        ensures Bijection(RekeyAll(t, order, oldPrefix, newPrefix))
      {
        RekeyAllKeeps(t, order, oldPrefix, newPrefix);
      }
    } else {
      var i :| i in t.nodes && Under(t.nodes[i].key, oldPrefix) &&
        Reprefix(t.nodes[i].key, oldPrefix, newPrefix) != t.nodes[i].key &&
        Reprefix(t.nodes[i].key, oldPrefix, newPrefix) in t.byKey;
      var order := ClashingOrder(t, i, oldPrefix, newPrefix);
      assert !Bijection(RekeyAll(t, order, oldPrefix, newPrefix));
    }
  }

  lemma ClashingOrder(t: Table, i: nat, oldPrefix: string, newPrefix: string) returns (order: seq<nat>)
    requires Bijection(t) && i in Affected(t, oldPrefix)
    requires var newKey := Reprefix(t.nodes[i].key, oldPrefix, newPrefix);
      newKey != t.nodes[i].key && newKey in t.byKey
    ensures Enumerates(order, t, oldPrefix) && !Bijection(RekeyAll(t, order, oldPrefix, newPrefix))
  {
    var all := Affected(t, oldPrefix);
    var other := t.byKey[Reprefix(t.nodes[i].key, oldPrefix, newPrefix)];
    if other in all {
      var rest := Listing(all - {i, other});
      order := [i, other] + rest;
      ElemsConcat([i, other], rest);
      NoDupConcat([i, other], rest);
      LostEntry(t, rest, i, other, oldPrefix, newPrefix);
    } else {
      order := Listing(all);
      ClashWithUnaffected(t, order, i, other, oldPrefix, newPrefix);
    }
  }

  // ----- whole runs -----

  datatype Op =
    | InternOp(key: string, kind: NodeKind, parent: nat)
    | ForgetOp(ino: nat)
    | RekeyOp(ino: nat, newKey: string)
    | RekeyPrefixOp(oldPrefix: string, newPrefix: string, order: seq<nat>)

  /** The calls for which the correspondence is promised. */
  ghost predicate Allowed(t: Table, op: Op) {
    match op
    case InternOp(_, _, _) => true
    case ForgetOp(ino) => ino != ROOT_INODE
    case RekeyOp(ino, newKey) => ino in t.nodes && newKey in t.byKey ==> t.byKey[newKey] == ino
    case RekeyPrefixOp(oldPrefix, newPrefix, order) =>
      NoClash(t, oldPrefix, newPrefix) && Enumerates(order, t, oldPrefix)
  }

  ghost function Apply(t: Table, op: Op): Table
    requires Allowed(t, op)
  {
    match op
    case InternOp(key, kind, parent) => Intern(t, key, kind, parent)
    case ForgetOp(ino) => Forget(t, ino)
    case RekeyOp(ino, newKey) => Rekey(t, ino, newKey)
    case RekeyPrefixOp(oldPrefix, newPrefix, order) => RekeyAll(t, order, oldPrefix, newPrefix)
  }

  ghost predicate AllAllowed(t: Table, ops: seq<Op>)
    decreases |ops|
  {
    ops == [] || (Allowed(t, ops[0]) && AllAllowed(Apply(t, ops[0]), ops[1..]))
  }

  ghost function Run(t: Table, ops: seq<Op>): Table
    requires AllAllowed(t, ops)
    decreases |ops|
  {
    if ops == [] then t else Run(Apply(t, ops[0]), ops[1..])
  }

  lemma ApplyKeeps(t: Table, op: Op)
    requires Bijection(t) && Allowed(t, op)
    ensures var u := Apply(t, op);
      Bijection(u) && t.next <= u.next && forall i :: i in u.nodes ==> i in t.nodes || t.next <= i
  {
    match op
    case InternOp(key, kind, parent) => InternKeeps(t, key, kind, parent);
    case ForgetOp(ino) => ForgetKeeps(t, ino);
    case RekeyOp(ino, newKey) => RekeyKeeps(t, ino, newKey);
    case RekeyPrefixOp(oldPrefix, newPrefix, order) =>
      RekeyAllKeeps(t, order, oldPrefix, newPrefix);
      RekeyAllNodes(t, order, oldPrefix, newPrefix);
  }

  /**
   * Over every run inodes and keys stay in one-to-one correspondence, the root survives (it is
   * part of the correspondence), and a number that was handed out and dropped never comes back.
   */
  lemma {:induction false} RunKeeps(t: Table, ops: seq<Op>)
    requires Bijection(t) && AllAllowed(t, ops)
    ensures var u := Run(t, ops);
      Bijection(u) && t.next <= u.next && forall i :: i in u.nodes ==> i in t.nodes || t.next <= i
    decreases |ops|
  {
    if ops != [] {
      ApplyKeeps(t, ops[0]);
      RunKeeps(Apply(t, ops[0]), ops[1..]);
    }
  }

  // ----- the table itself -----

  class InodeTable {
    var nodes: map<nat, Node>
    var byKey: map<string, nat>
    var next: nat

    function Model(): Table
      reads this
    {
      Table(nodes, byKey, next)
    }

    constructor (rootKey: string)
      ensures Model() == NewTable(rootKey)
    {
      nodes := map[ROOT_INODE := Node(rootKey, Dir, ROOT_INODE)];
      byKey := map[rootKey := ROOT_INODE];
      next := ROOT_INODE + 1;
    }

    function Get(ino: nat): (r: Option<Node>)
      reads this
      ensures Bijection(Model()) && r.Some? ==> LookupKey(r.value.key) == Some(ino)
    {
      if ino in nodes then Some(nodes[ino]) else None
    }

    function LookupKey(key: string): (r: Option<nat>)
      reads this
      ensures Bijection(Model()) && r.Some? ==> r.value in nodes && nodes[r.value].key == key
    {
      if key in byKey then Some(byKey[key]) else None
    }

    method InternKey(key: string, kind: NodeKind, parent: nat) returns (ino: nat)
      modifies this
      ensures Model() == Intern(old(Model()), key, kind, parent)
      ensures key in byKey && byKey[key] == ino
    {
      if key in byKey { return byKey[key]; }
      ino := next;
      next := next + 1;
      nodes := nodes[ino := Node(key, kind, parent)];
      byKey := byKey[key := ino];
    }

    method RekeyInode(ino: nat, newKey: string)
      modifies this
      ensures Model() == Rekey(old(Model()), ino, newKey)
    {
      if ino in nodes {
        RepointInode(ino, nodes[ino].key, newKey);
      }
    }

    method RepointInode(ino: nat, oldKey: string, newKey: string)
      modifies this
      ensures Model() == Repoint(old(Model()), ino, oldKey, newKey)
    {
      if ino in nodes {
        nodes := nodes[ino := nodes[ino].(key := newKey)];
      }
      byKey := byKey - {oldKey};
      byKey := byKey[newKey := ino];
    }

    /** Rekeys every inode under `oldPrefix`; the map is walked in an arbitrary order. */
    method RekeyPrefix(oldPrefix: string, newPrefix: string) returns (ids: seq<nat>)
      modifies this
      ensures Enumerates(ids, old(Model()), oldPrefix)
      ensures Model() == RekeyAll(old(Model()), ids, oldPrefix, newPrefix)
    {
      var before := nodes;
      var pending := set i | i in nodes && Under(nodes[i].key, oldPrefix);
      ghost var all := pending;
      assert all == Affected(Model(), oldPrefix);
      ids := [];
      while pending != {}
        invariant pending <= all && NoDup(ids) && Elems(ids) == all - pending
        invariant Model() == RekeyAll(old(Model()), ids, oldPrefix, newPrefix)
      {
        var ino :| ino in pending;
        var oldKey := before[ino].key;
        RepointInode(ino, oldKey, Reprefix(oldKey, oldPrefix, newPrefix));
        RekeyAllSnoc(old(Model()), ids, ino, oldPrefix, newPrefix);
        ids := ids + [ino];
        pending := pending - {ino};
      }
    }

    method ForgetInode(ino: nat)
      modifies this
      ensures Model() == Forget(old(Model()), ino)
    {
      if ino in nodes {
        var key := nodes[ino].key;
        nodes := nodes - {ino};
        byKey := byKey - {key};
      }
    }
  }
}
