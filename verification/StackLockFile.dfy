/** The lock as the program keeps it: an object whose nested map is changed in place,
    a file that is replaced once at the end, and the two clients that resolve through it. */
module StackLockFile {
  import opened Common
  import opened StackLock

  class Lock {
    var existed: bool
    var stacks: Stacks

    constructor (existed: bool, stacks: Stacks)
      ensures this.existed == existed && this.stacks == stacks
    {
      this.existed, this.stacks := existed, stacks;
    }

    method Entry(stack: string, name: string) returns (e: Option<Entry>)
      ensures e == Lookup(stacks, stack, name)
    {
      e := if stack in stacks && name in stacks[stack] then Some(stacks[stack][name]) else None;
    }

    method Set(stack: string, name: string, e: Entry)
      modifies this
      ensures stacks == WithEntry(old(stacks), stack, name, e) && existed == old(existed)
    {
      if stack !in stacks {
        stacks := stacks[stack := map[]];
      }
      stacks := stacks[stack := stacks[stack][name := e]];
    }

    /** Removes the entries of a stack that are no longer declared, and the stack when
        nothing is left.  The entries are walked in an arbitrary order. */
    method Prune(stack: string, declared: set<string>) returns (removed: seq<string>)
      modifies this
      ensures stacks == Pruned(old(stacks), stack, declared) && existed == old(existed)
      ensures NoDuplicates(removed) && Elements(removed) == Entries(old(stacks), stack).Keys - declared
    {
      removed := [];
      if stack !in stacks {
        return;
      }
      var entries := stacks[stack];
      var names := InSomeOrder(entries.Keys);
      for i := 0 to |names|
        invariant Elements(removed) == Elements(names[..i]) - declared && NoDuplicates(removed)
        invariant stacks == old(stacks) && existed == old(existed)
        invariant entries == stacks[stack] - Elements(removed)
      {
        ElementsAppend(names[..i], names[i]);
        assert names[..i + 1] == names[..i] + [names[i]];
        assert names[i] !in Elements(names[..i]);
        if names[i] !in declared {
          ElementsAppend(removed, names[i]);
          removed := removed + [names[i]];
          entries := entries - {names[i]};
        }
      }
      assert names[..|names|] == names;
      assert entries == map n | n in stacks[stack] && n in declared :: stacks[stack][n];
      stacks := if entries == map[] then stacks - {stack} else stacks[stack := entries];
    }
  }

  /** The directory holding .ubx/blueprints.lock. */
  class LedgerDir {
    var file: LockFile

    /** LoadStackLock under a policy: a mode that ignores the lock gets an empty one. */
    method Load(mode: Mode) returns (r: Result<Lock>)
      ensures r.Err? <==> StackLock.Load(mode, file).Err?
      ensures r.Ok? ==> fresh(r.value) && StackLock.Load(mode, file) == Ok((r.value.existed, r.value.stacks))
    {
      var l;
      if mode.Off? || file.Absent? {
        l := new Lock(false, map[]);
      } else if file.Unreadable? {
        return Err;
      } else {
        l := new Lock(true, file.stacks);
      }
      return Ok(l);
    }

    /** applyLockPolicy for one resolved declaration. */
    method ApplyPolicy(inv: Invocation, lock: Lock, dep: Dep, got: Fetched, locked: Option<Entry>) returns (ok: bool)
      requires locked == Lookup(lock.stacks, inv.stack, dep.name)
      requires inv.requireName ==> got.name == dep.name
      modifies lock
      ensures lock.existed == old(lock.existed)
      ensures var r := ResolveOne(inv, lock.existed, old(lock.stacks), dep, Some(got));
              if ok then r == Ok((lock.stacks, got.hash)) else r.Err?
    {
      if inv.mode.Off? {
        return true;
      }
      if inv.mode.Update? {
        lock.Set(inv.stack, dep.name, StackLock.Entry(dep.url, got.hash));
        return true;
      }
      if !lock.existed && inv.mode.Verify? {
        return true;
      }
      if locked.Some? {
        return Agrees(locked.value, dep.url, got.hash);
      }
      if inv.mode.Write? {
        lock.Set(inv.stack, dep.name, StackLock.Entry(dep.url, got.hash));
        return true;
      }
      return false;
    }

    /** The resolution pipeline both clients share: load, resolve every declaration under
        the policy, prune, save.  The file is written once, and only on success. */
    method Resolve(inv: Invocation) returns (r: Result<seq<string>>)
      requires inv.Valid()
      modifies this
      ensures (file, r) == Run(inv, old(file))
    {
      var loaded := Load(inv.mode);
      if loaded.Err? {
        return Err;
      }
      var lock := loaded.value;
      ghost var before := lock.stacks;
      var hashes := [];
      for i := 0 to |inv.deps|
        invariant ResolveMany(inv, lock.existed, before, i) == Ok(Step(lock.stacks, hashes))
        invariant file == old(file) && StackLock.Load(inv.mode, file) == Ok((lock.existed, before))
        invariant fresh(lock)
      {
        var dep := inv.deps[i];
        var locked := lock.Entry(inv.stack, dep.name);
        if inv.answers[i].None? || (inv.requireName && inv.answers[i].value.name != dep.name) {
          LoopFails(inv, lock.existed, before, i, |inv.deps|);
          return Err;
        }
        var ok := ApplyPolicy(inv, lock, dep, inv.answers[i].value, locked);
        if !ok {
          LoopFails(inv, lock.existed, before, i, |inv.deps|);
          return Err;
        }
        hashes := hashes + [inv.answers[i].value.hash];
      }
      if inv.Writes() {
        var removed := lock.Prune(inv.stack, inv.Declares());
        file := Present(lock.stacks);
      }
      return Ok(hashes);
    }
  }

  lemma {:induction false} LoopFails(inv: Invocation, existed: bool, stacks: Stacks, i: nat, n: nat)
    requires inv.Valid() && i < n <= |inv.deps| && ResolveMany(inv, existed, stacks, i).Ok?
    requires ResolveOne(inv, existed, ResolveMany(inv, existed, stacks, i).value.stacks, inv.deps[i],
                        inv.answers[i]).Err?
    ensures ResolveMany(inv, existed, stacks, n).Err?
  {
    if i < n - 1 {
      LoopFails(inv, existed, stacks, i, n - 1);
    }
  }

  // --------------------------------------------------- what each client declares

  /** The requirements the config table does not name. */
  function Unlisted(table: map<string, string>, requirements: seq<Dep>): seq<Dep> {
    if requirements == [] then []
    else
      var front, d := Unlisted(table, requirements[..|requirements| - 1]), requirements[|requirements| - 1];
      if d.name in table then front else front + [d]
  }

  lemma UnlistedSnoc(table: map<string, string>, front: seq<Dep>, d: Dep)
    ensures Unlisted(table, front + [d])
         == Unlisted(table, front) + if d.name in table then [] else [d]
  {
    assert (front + [d])[..|front|] == front;
  }

  /** A requirement is kept exactly when the table does not name it, and in its order. */
  lemma {:induction false} UnlistedInOrder(table: map<string, string>, a: seq<Dep>, b: seq<Dep>)
    ensures Unlisted(table, a + b) == Unlisted(table, a) + Unlisted(table, b)
    ensures |b| == 1 ==> Unlisted(table, b) == if b[0].name in table then [] else b
    decreases |b|
  {
    if b == [] {
      assert a + b == a;
    } else {
      var front, d := b[..|b| - 1], b[|b| - 1];
      LastSplits(b);
      UnlistedInOrder(table, a, front);
      UnlistedSnoc(table, a + front, d);
      UnlistedSnoc(table, front, d);
      Regroup(a, front, [d]);
      Regroup(Unlisted(table, a), Unlisted(table, front), if d.name in table then [] else [d]);
    }
  }

  /** mergeDeclaredBlueprints: the config table's declarations in some order, then the
      requirements the table does not name.  The table wins every collision. */
  method MergeDeclared(table: map<string, string>, requirements: seq<Dep>) returns (merged: seq<Dep>)
    ensures |table| <= |merged| && merged[|table|..] == Unlisted(table, requirements)
    ensures forall k | 0 <= k < |table| :: merged[k].name in table && merged[k].url == table[merged[k].name]
    ensures forall j, k | 0 <= j < k < |table| :: merged[j].name != merged[k].name
  {
    var names := InSomeOrder(table.Keys);
    DistinctCardinality(names);
    var listed: seq<Dep> := [];
    for i := 0 to |names|
      invariant |listed| == i && forall k | 0 <= k < i :: listed[k] == Dep(names[k], table[names[k]])
    {
      assert names[i] in Elements(names);
      listed := listed + [Dep(names[i], table[names[i]])];
    }
    var rest: seq<Dep> := [];
    for i := 0 to |requirements|
      invariant rest == Unlisted(table, requirements[..i])
    {
      assert requirements[..i + 1][..i] == requirements[..i];
      if requirements[i].name !in table {
        rest := rest + [requirements[i]];
      }
    }
    assert requirements[..|requirements|] == requirements;
    merged := listed + rest;
  }

  /** One remote blueprint call, as the declaration it amounts to. */
  datatype CallDecl = CallDecl(name: string, url: string, ref: string, path: string)

  /** The first loop of resolveCallBlueprints: one declaration per name, refused when two
      calls give one name and different sources. */
  method DistinctCalls(calls: seq<CallDecl>) returns (r: Result<seq<CallDecl>>)
    ensures r.Ok?
            <==> forall i, j | 0 <= i < |calls| && 0 <= j < |calls| && calls[i].name == calls[j].name ::
                   calls[i] == calls[j]
    ensures r.Ok? ==> NoDuplicates(r.value) && Elements(r.value) == Elements(calls)
    ensures r.Ok? ==> forall i, j | 0 <= i < j < |r.value| :: r.value[i].name != r.value[j].name
  {
    var byName: map<string, CallDecl> := map[];
    var order: seq<CallDecl> := [];
    for i := 0 to |calls|
      invariant forall n | n in byName :: byName[n].name == n && byName[n] in order
      invariant Elements(order) == Elements(calls[..i])
      invariant forall d | d in order :: d.name in byName && byName[d.name] == d
      invariant forall j, k | 0 <= j < k < |order| :: order[j].name != order[k].name
    {
      var d := calls[i];
      assert calls[..i + 1] == calls[..i] + [d];
      ElementsAppend(calls[..i], d);
      if d.name !in byName {
        ElementsAppend(order, d);
        byName := byName[d.name := d];
        order := order + [d];
      } else if byName[d.name] != d {
        assert byName[d.name] in Elements(calls[..i]);
        var k :| 0 <= k < i && calls[k] == byName[d.name];
        return Err;
      }
    }
    assert calls[..|calls|] == calls;
    forall i, j | 0 <= i < |calls| && 0 <= j < |calls| && calls[i].name == calls[j].name ensures calls[i] == calls[j] {
      assert calls[i] in Elements(order) && calls[j] in Elements(order);
    }
    return Ok(order);
  }
}
