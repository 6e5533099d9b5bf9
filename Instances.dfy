/**
 * Book-keeping of VFS instances: a table of infos (id, parent id,
 * configuration, promise count, whether the host is still alive) and the
 * reference-counted promises that keep infos restorable after their host dies.
 */
module VfsInstances {
  import opened Base

  /** What is needed to re-create a host: its tag and the junction shown to the user. */
  datatype Configuration = Configuration(tag: string, verboseJunction: string)

  /**
   * One row of the table. `alive` stands for the weak pointer to the host not
   * having expired; `parentId` is 0 for a root host.
   */
  datatype Info = Info(id: nat, parentId: nat, config: Configuration, promises: nat, alive: bool)

  /** An info nobody can restore any more: its host is gone and no promise names it. */
  predicate Dead(info: Info)
  {
    !info.alive && info.promises == 0
  }

  // ---------------------------------------------------------------------------
  // Lookup and child counts
  // ---------------------------------------------------------------------------

  /** The position of the first info with `id`, as the linear lookup finds it. */
  function IndexOf(mem: seq<Info>, id: nat): (r: Option<nat>)
    ensures r.Some? ==> r.value < |mem| && mem[r.value].id == id &&
                        forall j :: 0 <= j < r.value ==> mem[j].id != id
    ensures r.None? <==> forall j :: 0 <= j < |mem| ==> mem[j].id != id
  {
    if mem == [] then None
    else if mem[0].id == id then Some(0)
    else
      var r := IndexOf(mem[1..], id);
      assert forall j :: 1 <= j < |mem| ==> mem[j] == mem[1..][j - 1];
      if r.None? then None else Some(r.value + 1)
  }

  predicate HasId(mem: seq<Info>, id: nat)
  {
    exists x :: x in mem && x.id == id
  }

  lemma IndexOfFinds(mem: seq<Info>, id: nat)
    ensures IndexOf(mem, id).Some? <==> HasId(mem, id)
  {
    if HasId(mem, id) {
      var x :| x in mem && x.id == id;
      var j :| 0 <= j < |mem| && mem[j] == x;
    }
  }

  /** How many infos name `id` as their parent. */
  function Children(mem: seq<Info>, id: nat): nat
  {
    if mem == [] then 0
    else (if mem[0].parentId == id then 1 else 0) + Children(mem[1..], id)
  }

  // ---------------------------------------------------------------------------
  // The table invariant
  // ---------------------------------------------------------------------------

  /** Ids grow along the table: they are unique and the table is in creation order. */
  predicate IdsIncreasing(mem: seq<Info>)
  {
    forall i, j {:trigger IdAt(mem, i), IdAt(mem, j)} :: 0 <= i < j < |mem| ==> IdAt(mem, i) < IdAt(mem, j)
  }

  function IdAt(mem: seq<Info>, i: int): nat
    requires 0 <= i < |mem|
  {
    mem[i].id
  }

  /**
   * Ids are positive, a parent is older than its child, and every parent
   * named is still in the table.
   */
  predicate ParentsPresent(mem: seq<Info>)
  {
    (forall x :: x in mem ==> 0 < x.id && x.parentId < x.id) &&
    forall x {:trigger ParentKnown(mem, x)} :: x in mem ==> ParentKnown(mem, x)
  }

  /**
   * The parent `x` names is in the table. Quantified only through this
   * predicate, so that a parent found does not start a walk up to the root.
   */
  predicate ParentKnown(mem: seq<Info>, x: Info)
  {
    x.parentId != 0 ==> HasId(mem, x.parentId)
  }

  lemma ParentOf(mem: seq<Info>, x: Info)
    requires ParentsPresent(mem) && x in mem && x.parentId != 0
    ensures HasId(mem, x.parentId)
  {
    assert ParentKnown(mem, x);
  }

  /** Every child holds one promise on its parent, so a count covers the children. */
  predicate CountsCoverChildren(mem: seq<Info>)
  {
    forall x :: x in mem ==> x.promises >= Children(mem, x.id)
  }

  predicate WellFormed(mem: seq<Info>)
  {
    IdsIncreasing(mem) && ParentsPresent(mem) && CountsCoverChildren(mem)
  }

  /** With unique ids, the lookup finds exactly the position holding the id. */
  lemma IdsOrdered(mem: seq<Info>, i: int, j: int)
    requires IdsIncreasing(mem) && 0 <= i < j < |mem|
    ensures mem[i].id < mem[j].id
  {
    assert IdAt(mem, i) < IdAt(mem, j);
  }

  /** With unique ids, the lookup finds exactly the position holding the id. */
  lemma IndexOfUnique(mem: seq<Info>, j: int)
    requires IdsIncreasing(mem) && 0 <= j < |mem|
    ensures IndexOf(mem, mem[j].id) == Some(j)
  {
    var r := IndexOf(mem, mem[j].id);
    if r.value < j {
      IdsOrdered(mem, r.value, j);
    }
  }

  lemma IdRecord(mem: seq<Info>, x: Info, y: Info)
    requires IdsIncreasing(mem) && x in mem && y in mem && x.id == y.id
    ensures x == y
  {
    var i :| 0 <= i < |mem| && mem[i] == x;
    var j :| 0 <= j < |mem| && mem[j] == y;
    if i < j {
      IdsOrdered(mem, i, j);
    } else if j < i {
      IdsOrdered(mem, j, i);
    }
  }

  // ---------------------------------------------------------------------------
  // Child counts under the table edits
  // ---------------------------------------------------------------------------

  lemma {:induction false} ChildrenUpdate(mem: seq<Info>, k: int, x: Info, id: nat)
    requires 0 <= k < |mem| && x.parentId == mem[k].parentId
    ensures Children(mem[k := x], id) == Children(mem, id)
    decreases |mem|
  {
    if k > 0 {
      assert mem[k := x][1..] == mem[1..][k - 1 := x];
      ChildrenUpdate(mem[1..], k - 1, x, id);
    } else {
      assert mem[k := x][1..] == mem[1..];
    }
  }

  function Removed(mem: seq<Info>, k: int): seq<Info>
    requires 0 <= k < |mem|
  {
    mem[..k] + mem[k + 1..]
  }

  lemma {:induction false} ChildrenRemoved(mem: seq<Info>, k: int, id: nat)
    requires 0 <= k < |mem|
    ensures Children(Removed(mem, k), id) + (if mem[k].parentId == id then 1 else 0) == Children(mem, id)
    decreases |mem|
  {
    if k > 0 {
      assert Removed(mem, k)[0] == mem[0];
      assert Removed(mem, k)[1..] == Removed(mem[1..], k - 1);
      ChildrenRemoved(mem[1..], k - 1, id);
    } else {
      assert Removed(mem, k) == mem[1..];
    }
  }

  lemma {:induction false} ChildrenAppended(mem: seq<Info>, x: Info, id: nat)
    ensures Children(mem + [x], id) == Children(mem, id) + (if x.parentId == id then 1 else 0)
    decreases |mem|
  {
    if mem == [] {
      assert (mem + [x])[1..] == [];
    } else {
      assert (mem + [x])[1..] == mem[1..] + [x];
      ChildrenAppended(mem[1..], x, id);
    }
  }

  /** An info in the table counts as a child of its parent. */
  lemma {:induction false} ChildCounted(mem: seq<Info>, x: Info)
    requires x in mem
    ensures Children(mem, x.parentId) >= 1
    decreases |mem|
  {
    if mem[0] != x {
      assert x in mem[1..];
      ChildCounted(mem[1..], x);
    }
  }

  /**
   * The promise a child takes on its parent when it is registered keeps the
   * parent alive: in a well-formed table the parent of every info is present,
   * and its count covers all of its children, so it is at least one.
   */
  lemma ParentHeldByChild(mem: seq<Info>, x: Info)
    requires WellFormed(mem) && x in mem && x.parentId != 0
    ensures HasId(mem, x.parentId)
    ensures forall p :: p in mem && p.id == x.parentId ==> p.promises >= Children(mem, p.id) >= 1
  {
    ParentOf(mem, x);
    ChildCounted(mem, x);
  }

  // ---------------------------------------------------------------------------
  // Incrementing
  // ---------------------------------------------------------------------------

  /** The table with the count of row `k` set to `n`. */
  function WithCount(mem: seq<Info>, k: int, n: nat): seq<Info>
    requires 0 <= k < |mem|
  {
    mem[k := mem[k].(promises := n)]
  }

  /** The table after IncPromiseCount(id): no change for id 0 or an unknown id. */
  function Incremented(mem: seq<Info>, id: nat): seq<Info>
  {
    if id == 0 then mem
    else match IndexOf(mem, id)
      case None => mem
      case Some(k) => WithCount(mem, k, mem[k].promises + 1)
  }

  lemma RowEditIds(mem: seq<Info>, k: int, x: Info)
    requires IdsIncreasing(mem) && 0 <= k < |mem| && x.id == mem[k].id
    ensures IdsIncreasing(mem[k := x])
    ensures forall id :: IndexOf(mem[k := x], id) == IndexOf(mem, id)
  {
    var m := mem[k := x];
    forall i, j | 0 <= i < j < |m|
      ensures IdAt(m, i) < IdAt(m, j)
    {
      IdsOrdered(mem, i, j);
    }
    forall id
      ensures IndexOf(m, id) == IndexOf(mem, id)
    {
      if IndexOf(mem, id).Some? {
        IndexOfUnique(m, IndexOf(mem, id).value);
      }
    }
  }

  lemma RowEditParents(mem: seq<Info>, k: int, x: Info)
    requires ParentsPresent(mem) && 0 <= k < |mem| && x.id == mem[k].id && x.parentId == mem[k].parentId
    ensures ParentsPresent(mem[k := x])
  {
    var m := mem[k := x];
    forall z | z in m
      ensures 0 < z.id && z.parentId < z.id && ParentKnown(m, z)
    {
      var i :| 0 <= i < |m| && m[i] == z;
      assert mem[i].parentId == z.parentId && mem[i].id == z.id && mem[i] in mem;
      if z.parentId != 0 {
        ParentOf(mem, mem[i]);
        var y :| y in mem && y.id == z.parentId;
        var q :| 0 <= q < |mem| && mem[q] == y;
        assert m[q] in m && m[q].id == z.parentId;
      }
    }
  }

  lemma RowEditCounts(mem: seq<Info>, k: int, x: Info)
    requires CountsCoverChildren(mem) && 0 <= k < |mem|
    requires x.id == mem[k].id && x.parentId == mem[k].parentId && x.promises >= Children(mem, x.id)
    ensures CountsCoverChildren(mem[k := x])
    ensures forall id :: Children(mem[k := x], id) == Children(mem, id)
  {
    var m := mem[k := x];
    forall id
      ensures Children(m, id) == Children(mem, id)
    {
      ChildrenUpdate(mem, k, x, id);
    }
    forall z | z in m
      ensures z.promises >= Children(m, z.id)
    {
      var i :| 0 <= i < |m| && m[i] == z;
      if i != k {
        assert mem[i] == z && mem[i] in mem;
      }
    }
  }

  /** Replacing a row by one with the same id and parent and a count still covering its children. */
  lemma RowEditKeeps(mem: seq<Info>, k: int, x: Info)
    requires WellFormed(mem) && 0 <= k < |mem|
    requires x.id == mem[k].id && x.parentId == mem[k].parentId && x.promises >= Children(mem, x.id)
    ensures WellFormed(mem[k := x])
    ensures forall id :: IndexOf(mem[k := x], id) == IndexOf(mem, id)
    ensures forall id :: Children(mem[k := x], id) == Children(mem, id)
  {
    RowEditIds(mem, k, x);
    RowEditParents(mem, k, x);
    RowEditCounts(mem, k, x);
  }

  /** Editing one row's count keeps ids, parents and child counts. */
  lemma CountEditKeeps(mem: seq<Info>, k: int, n: nat)
    requires WellFormed(mem) && 0 <= k < |mem| && n >= Children(mem, mem[k].id)
    ensures WellFormed(WithCount(mem, k, n))
    ensures forall id :: IndexOf(WithCount(mem, k, n), id) == IndexOf(mem, id)
    ensures forall id :: Children(WithCount(mem, k, n), id) == Children(mem, id)
  {
    RowEditKeeps(mem, k, mem[k].(promises := n));
  }

  lemma IncrementedAt(mem: seq<Info>, id: nat, k: int)
    requires id != 0 && IndexOf(mem, id) == Some(k)
    ensures Incremented(mem, id) == WithCount(mem, k, mem[k].promises + 1)
  {
  }

  lemma IncrementedKeeps(mem: seq<Info>, id: nat)
    requires WellFormed(mem)
    ensures WellFormed(Incremented(mem, id))
  {
    if id != 0 && IndexOf(mem, id).Some? {
      var k := IndexOf(mem, id).value;
      IncrementedAt(mem, id, k);
      assert mem[k] in mem;
      CountEditKeeps(mem, k, mem[k].promises + 1);
    }
  }

  // ---------------------------------------------------------------------------
  // Releasing
  // ---------------------------------------------------------------------------

  /**
   * DecPromiseCount(id) may run: the id is 0 or unknown (nothing happens), or
   * its count exceeds what the children hold, i.e. the caller owns one of
   * the promises counted.
   */
  predicate CanRelease(mem: seq<Info>, id: nat)
  {
    id == 0 || IndexOf(mem, id).None? || mem[IndexOf(mem, id).value].promises > Children(mem, id)
  }

  /** Removing row `k` keeps exactly the other rows. */
  lemma RemovedMembers(mem: seq<Info>, k: int)
    requires IdsIncreasing(mem) && 0 <= k < |mem|
    ensures IdsIncreasing(Removed(mem, k))
    ensures forall x :: x in Removed(mem, k) <==> x in mem && x != mem[k]
  {
    var m := Removed(mem, k);
    assert forall i :: 0 <= i < |m| ==> m[i] == if i < k then mem[i] else mem[i + 1];
    forall i, j | 0 <= i < j < |m|
      ensures IdAt(m, i) < IdAt(m, j)
    {
      assert m[j] == mem[if j < k then j else j + 1];
      assert m[i] == mem[if i < k then i else i + 1];
      IdsOrdered(mem, if i < k then i else i + 1, if j < k then j else j + 1);
    }
    forall x
      ensures x in m <==> x in mem && x != mem[k]
    {
      if x in mem && x != mem[k] {
        var i :| 0 <= i < |mem| && mem[i] == x;
        assert if i < k then m[i] == x else m[i - 1] == x;
      }
      if x in m {
        var i :| 0 <= i < |m| && m[i] == x;
        assert if i < k then mem[i] == x else mem[i + 1] == x;
        if i < k {
          IdsOrdered(mem, i, k);
        } else {
          IdsOrdered(mem, k, i + 1);
        }
      }
    }
  }

  /** A childless info can go without leaving a dangling parent link. */
  lemma RemovedParents(mem: seq<Info>, k: int)
    requires IdsIncreasing(mem) && ParentsPresent(mem) && 0 <= k < |mem|
    requires forall x :: x in mem ==> x.parentId != mem[k].id
    ensures ParentsPresent(Removed(mem, k))
  {
    var m := Removed(mem, k);
    RemovedMembers(mem, k);
    forall x | x in m
      ensures 0 < x.id && x.parentId < x.id && ParentKnown(m, x)
    {
      if x.parentId != 0 {
        ParentOf(mem, x);
        var y :| y in mem && y.id == x.parentId;
        assert y in m;
      }
    }
  }

  lemma RemovedCounts(mem: seq<Info>, k: int)
    requires IdsIncreasing(mem) && CountsCoverChildren(mem) && 0 <= k < |mem|
    ensures CountsCoverChildren(Removed(mem, k))
    ensures mem[k].parentId != 0 ==> CanRelease(Removed(mem, k), mem[k].parentId)
  {
    var m := Removed(mem, k);
    var gone := mem[k];
    RemovedMembers(mem, k);
    forall x | x in m
      ensures x.promises >= Children(m, x.id)
    {
      ChildrenRemoved(mem, k, x.id);
    }
    if gone.parentId != 0 && IndexOf(m, gone.parentId).Some? {
      var q := IndexOf(m, gone.parentId).value;
      assert m[q] in m && m[q] in mem;
      ChildrenRemoved(mem, k, gone.parentId);
    }
  }

  /** Every id of `a` is an id of `b`: nothing new appears. */
  predicate IdsWithin(a: seq<Info>, b: seq<Info>)
  {
    forall x :: x in a ==> HasId(b, x.id)
  }

  predicate HasLiveId(mem: seq<Info>, id: nat)
  {
    exists y :: y in mem && y.id == id && y.alive
  }

  /** Every info of `a` whose host is alive is still in `b`. */
  predicate AliveKept(a: seq<Info>, b: seq<Info>)
  {
    forall x :: x in a && x.alive ==> HasLiveId(b, x.id)
  }

  lemma WithinTransitive(a: seq<Info>, b: seq<Info>, c: seq<Info>)
    requires IdsWithin(a, b) && IdsWithin(b, c)
    ensures IdsWithin(a, c)
  {
    forall x | x in a
      ensures HasId(c, x.id)
    {
      var y :| y in b && y.id == x.id;
    }
  }

  lemma AliveKeptTransitive(a: seq<Info>, b: seq<Info>, c: seq<Info>)
    requires AliveKept(a, b) && AliveKept(b, c)
    ensures AliveKept(a, c)
  {
    forall x | x in a && x.alive
      ensures HasLiveId(c, x.id)
    {
      var y :| y in b && y.id == x.id && y.alive;
    }
  }

  /** Dropping the count of a row whose count exceeds its children's. */
  lemma DecrementStep(mem: seq<Info>, k: int)
    requires WellFormed(mem) && 0 <= k < |mem| && mem[k].promises > Children(mem, mem[k].id)
    ensures WellFormed(WithCount(mem, k, mem[k].promises - 1))
    ensures IdsWithin(WithCount(mem, k, mem[k].promises - 1), mem)
    ensures AliveKept(mem, WithCount(mem, k, mem[k].promises - 1))
  {
    var dec := WithCount(mem, k, mem[k].promises - 1);
    CountEditKeeps(mem, k, mem[k].promises - 1);
    forall x | x in dec
      ensures HasId(mem, x.id)
    {
      var i :| 0 <= i < |dec| && dec[i] == x;
      assert mem[i] in mem && mem[i].id == x.id;
    }
    forall x | x in mem && x.alive
      ensures HasLiveId(dec, x.id)
    {
      var i :| 0 <= i < |mem| && mem[i] == x;
      assert dec[i] in dec && dec[i].id == x.id && dec[i].alive;
    }
  }

  /** Erasing a row nobody holds and whose host is gone. */
  lemma EraseStep(mem: seq<Info>, k: int)
    requires WellFormed(mem) && 0 <= k < |mem| && mem[k].promises == 0 && !mem[k].alive
    ensures WellFormed(Removed(mem, k))
    ensures CanRelease(Removed(mem, k), mem[k].parentId)
    ensures IdsWithin(Removed(mem, k), mem)
    ensures AliveKept(mem, Removed(mem, k))
  {
    RemovedKeeps(mem, k);
    var m := Removed(mem, k);
    forall x | x in m
      ensures HasId(mem, x.id)
    {
    }
    forall x | x in mem && x.alive
      ensures HasLiveId(m, x.id)
    {
      assert x in m;
    }
  }

  /** Removing an info nobody holds keeps the table well formed and lets its parent be released. */
  lemma RemovedKeeps(mem: seq<Info>, k: int)
    requires WellFormed(mem) && 0 <= k < |mem| && mem[k].promises == 0
    ensures WellFormed(Removed(mem, k))
    ensures CanRelease(Removed(mem, k), mem[k].parentId)
    ensures forall x :: x in Removed(mem, k) <==> x in mem && x != mem[k]
  {
    assert mem[k] in mem;
    // nobody names the removed info as parent: its zero count covers its children
    forall x | x in mem
      ensures x.parentId != mem[k].id
    {
      if x.parentId == mem[k].id {
        ChildCounted(mem, x);
      }
    }
    RemovedMembers(mem, k);
    RemovedParents(mem, k);
    RemovedCounts(mem, k);
  }

  /**
   * The table after DecPromiseCount(id): the count drops by one; an info
   * whose count reaches zero while its host is gone is erased, and the
   * promise it held on its parent is released in turn.
   */
  function Released(mem: seq<Info>, id: nat): (r: seq<Info>)
    requires WellFormed(mem) && CanRelease(mem, id)
    ensures WellFormed(r)
    ensures IdsWithin(r, mem)
    ensures AliveKept(mem, r)
    decreases id
  {
    if id == 0 then mem
    else match IndexOf(mem, id)
      case None => mem
      case Some(k) =>
        var dec := WithCount(mem, k, mem[k].promises - 1);
        DecrementStep(mem, k);
        if dec[k].promises == 0 && !dec[k].alive then
          EraseStep(dec, k);
          var removed := Removed(dec, k);
          if dec[k].parentId > 0 then
            assert mem[k] in mem;
            var r := Released(removed, dec[k].parentId);
            WithinTransitive(r, removed, dec);
            WithinTransitive(r, dec, mem);
            AliveKeptTransitive(mem, dec, removed);
            AliveKeptTransitive(mem, removed, r);
            r
          else
            WithinTransitive(removed, dec, mem);
            AliveKeptTransitive(mem, dec, removed);
            removed
        else dec
  }

  /** The release of an id whose info survives is just the drop of its count. */
  lemma ReleasedAt(mem: seq<Info>, id: nat, k: int)
    requires WellFormed(mem) && CanRelease(mem, id)
    requires id != 0 && IndexOf(mem, id) == Some(k)
    requires mem[k].promises != 1 || mem[k].alive
    ensures Released(mem, id) == WithCount(mem, k, mem[k].promises - 1)
  {
  }

  lemma WithCountTwice(mem: seq<Info>, k: int, n: nat)
    requires 0 <= k < |mem|
    ensures WithCount(WithCount(mem, k, n), k, mem[k].promises) == mem
  {
  }

  /**
   * Copying a promise and destroying the copy leaves the table as it was,
   * unless the info was already sweepable (then the release erases it).
   */
  lemma IncrementThenRelease(mem: seq<Info>, id: nat)
    requires WellFormed(mem)
    requires forall x :: x in mem && x.id == id ==> !Dead(x)
    ensures WellFormed(Incremented(mem, id)) && CanRelease(Incremented(mem, id), id)
    ensures Released(Incremented(mem, id), id) == mem
  {
    IncrementedKeeps(mem, id);
    if id != 0 && IndexOf(mem, id).Some? {
      var k := IndexOf(mem, id).value;
      assert mem[k] in mem;
      IncrementedAt(mem, id, k);
      var inc := WithCount(mem, k, mem[k].promises + 1);
      CountEditKeeps(mem, k, mem[k].promises + 1);
      ReleasedAt(inc, id, k);
      WithCountTwice(mem, k, mem[k].promises + 1);
    }
  }

  // ---------------------------------------------------------------------------
  // Sweeping
  // ---------------------------------------------------------------------------

  /** The table after SweepDeadMemory: dead infos erased, the rest kept in order. */
  function Swept(mem: seq<Info>): (r: seq<Info>)
    ensures forall x :: x in r <==> x in mem && !Dead(x)
    ensures |r| <= |mem|
  {
    if mem == [] then []
    else
      var rest := Swept(mem[1..]);
      assert forall x :: x in mem <==> x == mem[0] || x in mem[1..];
      if Dead(mem[0]) then rest else [mem[0]] + rest
  }

  /** Sweeping keeps the creation order. */
  lemma {:induction false} SweptIncreasing(mem: seq<Info>)
    requires IdsIncreasing(mem)
    ensures IdsIncreasing(Swept(mem))
    decreases |mem|
  {
    if mem != [] {
      var rest := Swept(mem[1..]);
      forall i, j | 0 <= i < j < |mem[1..]|
        ensures IdAt(mem[1..], i) < IdAt(mem[1..], j)
      {
        IdsOrdered(mem, i + 1, j + 1);
      }
      SweptIncreasing(mem[1..]);
      if !Dead(mem[0]) {
        var r := [mem[0]] + rest;
        forall i, j | 0 <= i < j < |r|
          ensures IdAt(r, i) < IdAt(r, j)
        {
          assert r[j] == rest[j - 1] && rest[j - 1] in mem[1..];
          if i > 0 {
            assert r[i] == rest[i - 1];
            IdsOrdered(rest, i - 1, j - 1);
          } else {
            var q :| 0 <= q < |mem[1..]| && mem[1..][q] == rest[j - 1];
            IdsOrdered(mem, 0, q + 1);
          }
        }
      }
    }
  }

  lemma {:induction false} ChildrenSwept(mem: seq<Info>, id: nat)
    ensures Children(Swept(mem), id) <= Children(mem, id)
    decreases |mem|
  {
    if mem != [] {
      ChildrenSwept(mem[1..], id);
      if !Dead(mem[0]) {
        assert Swept(mem)[1..] == Swept(mem[1..]);
      }
    }
  }

  /** Sweeping keeps the table well formed: a parent always outlives its children. */
  lemma SweptKeeps(mem: seq<Info>)
    requires WellFormed(mem)
    ensures WellFormed(Swept(mem))
  {
    var r := Swept(mem);
    SweptIncreasing(mem);
    forall x | x in r
      ensures ParentKnown(r, x)
    {
      if x.parentId != 0 {
        ParentOf(mem, x);
        var y :| y in mem && y.id == x.parentId;
        ChildCounted(mem, x);
        assert y.promises >= 1;
      }
    }
    forall x | x in r
      ensures x.promises >= Children(r, x.id)
    {
      ChildrenSwept(mem, x.id);
    }
  }

  // ---------------------------------------------------------------------------
  // New infos
  // ---------------------------------------------------------------------------

  /**
   * The table after the new-info branch of TameVFS: the parent's count is
   * bumped for the link and the new info starts with the caller's promise.
   * A parent that cannot be found leaves the new info without one.
   */
  function WithNewInfo(mem: seq<Info>, id: nat, parentId: nat, config: Configuration): seq<Info>
  {
    var linked := LinkedParent(mem, parentId);
    Incremented(mem, linked) + [Info(id, linked, config, 0, true)]
  }

  /** The parent id a new info records: the requested one if it is in the table, otherwise 0. */
  function LinkedParent(mem: seq<Info>, parentId: nat): (r: nat)
    ensures r == 0 || (r == parentId && HasId(mem, parentId))
    ensures parentId != 0 && HasId(mem, parentId) ==> r == parentId
  {
    IndexOfFinds(mem, parentId);
    if parentId != 0 && IndexOf(mem, parentId).Some? then parentId else 0
  }

  lemma AppendedIds(mem: seq<Info>, info: Info)
    requires IdsIncreasing(mem) && forall x :: x in mem ==> x.id < info.id
    ensures IdsIncreasing(mem + [info])
  {
    var r := mem + [info];
    forall i, j | 0 <= i < j < |r|
      ensures IdAt(r, i) < IdAt(r, j)
    {
      assert r[i] == mem[i] && mem[i] in mem;
      if j < |mem| {
        IdsOrdered(mem, i, j);
      }
    }
  }

  lemma AppendedParents(mem: seq<Info>, info: Info)
    requires ParentsPresent(mem)
    requires 0 < info.id && info.parentId < info.id && ParentKnown(mem, info)
    ensures ParentsPresent(mem + [info])
  {
    var r := mem + [info];
    forall x | x in r
      ensures 0 < x.id && x.parentId < x.id && ParentKnown(r, x)
    {
      if x.parentId != 0 {
        if x != info {
          ParentOf(mem, x);
        }
        var y :| y in mem && y.id == x.parentId;
        assert y in r;
      }
    }
  }

  lemma AppendedCounts(mem: seq<Info>, info: Info)
    requires CountsCoverChildren(mem) && info.parentId != info.id
    requires forall y :: y in mem ==> y.parentId != info.id && y.id != info.id
    requires forall y :: y in mem && y.id == info.parentId ==> y.promises > Children(mem, y.id)
    ensures CountsCoverChildren(mem + [info])
  {
    var r := mem + [info];
    forall x | x in r
      ensures x.promises >= Children(r, x.id)
    {
      ChildrenAppended(mem, info, x.id);
      if x == info {
        ChildrenNone(mem, info.id);
      } else {
        assert x in mem;
      }
    }
  }

  lemma WithNewInfoKeeps(mem: seq<Info>, id: nat, parentId: nat, config: Configuration)
    requires WellFormed(mem) && 0 < id && IdsBelow(mem, id)
    ensures WellFormed(WithNewInfo(mem, id, parentId, config))
  {
    var linked := LinkedParent(mem, parentId);
    var info := Info(id, linked, config, 0, true);
    if linked == 0 {
      AppendedIds(mem, info);
      AppendedParents(mem, info);
      AppendedCounts(mem, info);
    } else {
      IndexOfFinds(mem, linked);
      var k := IndexOf(mem, linked).value;
      IncrementedAt(mem, linked, k);
      var inc := WithCount(mem, k, mem[k].promises + 1);
      assert mem[k] in mem;
      CountEditKeeps(mem, k, mem[k].promises + 1);
      RowEditBelow(mem, k, mem[k].(promises := mem[k].promises + 1), id);
      assert inc[k] in inc && inc[k].id == linked;
      forall y | y in inc && y.id == linked
        ensures y.promises > Children(inc, y.id)
      {
        IdRecord(inc, y, inc[k]);
      }
      AppendedIds(inc, info);
      AppendedParents(inc, info);
      AppendedCounts(inc, info);
    }
  }

  lemma {:induction false} ChildrenNone(mem: seq<Info>, id: nat)
    requires forall y :: y in mem ==> y.parentId != id
    ensures Children(mem, id) == 0
    decreases |mem|
  {
    if mem != [] {
      assert mem[0] in mem;
      assert forall y :: y in mem[1..] ==> y in mem;
      ChildrenNone(mem[1..], id);
    }
  }

  // ---------------------------------------------------------------------------
  // Titles
  // ---------------------------------------------------------------------------

  /**
   * The verbose junctions from the root down to `id`, concatenated; None when
   * the walk meets an id that is not in the table.
   */
  function Title(mem: seq<Info>, id: nat): Option<string>
    requires ParentsPresent(mem)
    decreases id
  {
    if id == 0 then Some("")
    else match IndexOf(mem, id)
      case None => None
      case Some(k) =>
        assert mem[k] in mem;
        match Title(mem, mem[k].parentId)
        case None => None
        case Some(t) => Some(t + mem[k].config.verboseJunction)
  }

  /** In a well-formed table every walk from a known id reaches the root. */
  lemma {:induction false} TitleDefined(mem: seq<Info>, id: nat)
    requires ParentsPresent(mem) && (id == 0 || HasId(mem, id))
    ensures Title(mem, id).Some?
    decreases id
  {
    if id != 0 {
      IndexOfFinds(mem, id);
      var k := IndexOf(mem, id).value;
      assert mem[k] in mem;
      if mem[k].parentId != 0 {
        ParentOf(mem, mem[k]);
      }
      TitleDefined(mem, mem[k].parentId);
    }
  }

  /** A child's title is its parent's title followed by its own junction. */
  lemma ChildTitle(mem: seq<Info>, x: Info)
    requires WellFormed(mem) && x in mem
    ensures Title(mem, x.id).Some? && Title(mem, x.parentId).Some?
    ensures Title(mem, x.id).value == Title(mem, x.parentId).value + x.config.verboseJunction
  {
    var j :| 0 <= j < |mem| && mem[j] == x;
    IndexOfUnique(mem, j);
    if x.parentId != 0 {
      ParentOf(mem, x);
    }
    TitleDefined(mem, x.parentId);
  }

  // ---------------------------------------------------------------------------
  // Further facts used by the manager
  // ---------------------------------------------------------------------------

  /** Every id in the table is below the next id to be handed out. */
  predicate IdsBelow(mem: seq<Info>, bound: nat)
  {
    forall x :: x in mem ==> x.id < bound
  }

  lemma WithinBelow(a: seq<Info>, b: seq<Info>, bound: nat)
    requires IdsWithin(a, b) && IdsBelow(b, bound)
    ensures IdsBelow(a, bound)
  {
    forall x | x in a
      ensures x.id < bound
    {
      var y :| y in b && y.id == x.id;
    }
  }

  lemma RowEditBelow(mem: seq<Info>, k: int, x: Info, bound: nat)
    requires IdsBelow(mem, bound) && 0 <= k < |mem| && x.id == mem[k].id
    ensures IdsBelow(mem[k := x], bound)
  {
    forall z | z in mem[k := x]
      ensures z.id < bound
    {
      var i :| 0 <= i < |mem[k := x]| && mem[k := x][i] == z;
      assert mem[i] in mem;
    }
  }

  /** The host of row `k` is destroyed: only the alive flag changes. */
  lemma ExpiredKeeps(mem: seq<Info>, k: int)
    requires WellFormed(mem) && 0 <= k < |mem|
    ensures WellFormed(mem[k := mem[k].(alive := false)])
  {
    assert mem[k] in mem;
    RowEditKeeps(mem, k, mem[k].(alive := false));
  }

  /** Sweeping a table grown by one row sweeps the old rows and then tests the new one. */
  lemma {:induction false} SweptAppend(mem: seq<Info>, x: Info)
    ensures Swept(mem + [x]) == Swept(mem) + (if Dead(x) then [] else [x])
    decreases |mem|
  {
    if mem == [] {
      assert mem + [x] == [x] && [x][1..] == [];
    } else {
      assert (mem + [x])[0] == mem[0];
      assert (mem + [x])[1..] == mem[1..] + [x];
      SweptAppend(mem[1..], x);
    }
  }

  /** Survivors keep their relative order. */
  lemma SweptKeepsOrder(mem: seq<Info>, i: int, j: int, p: int, q: int)
    requires IdsIncreasing(mem) && 0 <= i < j < |Swept(mem)|
    requires 0 <= p < |mem| && 0 <= q < |mem| && mem[p] == Swept(mem)[i] && mem[q] == Swept(mem)[j]
    ensures p < q
  {
    SweptIncreasing(mem);
    IdsOrdered(Swept(mem), i, j);
    if q < p {
      IdsOrdered(mem, q, p);
    }
  }

  /** The id a row names as parent, 0 for an unknown id. */
  function ParentIdOf(mem: seq<Info>, id: nat): nat
  {
    match IndexOf(mem, id)
    case None => 0
    case Some(k) => mem[k].parentId
  }

  /** The walk of GetVerboseVFSTitle, with "" where it meets an unknown id. */
  function TitleOrEmpty(mem: seq<Info>, id: nat): string
    requires ParentsPresent(mem)
  {
    match Title(mem, id)
    case None => ""
    case Some(t) => t
  }

  /** Incrementing any id cannot take away the right to release another. */
  lemma IncrementedCanRelease(mem: seq<Info>, source: nat, target: nat)
    requires WellFormed(mem) && CanRelease(mem, target)
    ensures WellFormed(Incremented(mem, source)) && CanRelease(Incremented(mem, source), target)
  {
    IncrementedKeeps(mem, source);
    if source != 0 && IndexOf(mem, source).Some? {
      var k := IndexOf(mem, source).value;
      IncrementedAt(mem, source, k);
      assert mem[k] in mem;
      CountEditKeeps(mem, k, mem[k].promises + 1);
    }
  }

  // ---------------------------------------------------------------------------
  // Copy assignment of promises
  // ---------------------------------------------------------------------------

  /** The table after `target = source` as written: release the old id, then take the new one. */
  function CopyAssignedAsWritten(mem: seq<Info>, target: nat, source: nat): seq<Info>
    requires WellFormed(mem) && CanRelease(mem, target)
  {
    Incremented(Released(mem, target), source)
  }

  /**
   * Assigning a promise to itself when it is the last one on an info whose
   * host is gone erases the info, and the promise is left naming an id
   * that is no longer in the table.
   */
  lemma SelfCopyAssignAsWrittenLosesInfo()
    ensures var mem := [Info(1, 0, Configuration("native", ""), 1, false)];
            WellFormed(mem) && CanRelease(mem, 1) && HasId(mem, 1) &&
            CopyAssignedAsWritten(mem, 1, 1) == [] && !HasId(CopyAssignedAsWritten(mem, 1, 1), 1)
  {
    var mem := [Info(1, 0, Configuration("native", ""), 1, false)];
    assert mem[0] in mem;
    assert Children(mem, 1) == 0 by {
      assert mem[1..] == [];
    }
    assert IndexOf(mem, 1) == Some(0);
    var dec := WithCount(mem, 0, 0);
    assert Removed(dec, 0) == [];
    assert Released(mem, 1) == [];
  }

  /** The table after `target = source` taking the new id before releasing the old one. */
  function CopyAssigned(mem: seq<Info>, target: nat, source: nat): seq<Info>
    requires WellFormed(mem) && CanRelease(mem, target)
  {
    IncrementedCanRelease(mem, source, target);
    Released(Incremented(mem, source), target)
  }

  /** With that order, assigning a promise to itself leaves the table as it was. */
  lemma SelfCopyAssignKeepsTable(mem: seq<Info>, id: nat)
    requires WellFormed(mem) && CanRelease(mem, id)
    ensures CopyAssigned(mem, id, id) == mem
  {
    forall x | x in mem && x.id == id
      ensures !Dead(x)
    {
      IndexOfFinds(mem, id);
      var k := IndexOf(mem, id).value;
      assert mem[k] in mem;
      IdRecord(mem, x, mem[k]);
    }
    IncrementThenRelease(mem, id);
  }

  // ---------------------------------------------------------------------------
  // The manager
  // ---------------------------------------------------------------------------

  /** Some(t) becomes Some(t + suffix); a failed walk stays failed. */
  function Suffixed(t: Option<string>, suffix: string): Option<string>
  {
    match t
    case None => None
    case Some(s) => Some(s + suffix)
  }

  lemma AppendedBelow(mem: seq<Info>, info: Info, bound: nat)
    requires IdsBelow(mem, bound) && info.id < bound
    ensures IdsBelow(mem + [info], bound)
  {
    forall x | x in mem + [info]
      ensures x.id < bound
    {
      if x != info {
        assert x in mem;
      }
    }
  }

  /** The manager's state: a well-formed table whose ids are all below the counter. */
  predicate ValidTable(mem: seq<Info>, nextId: nat)
  {
    WellFormed(mem) && 0 < nextId && IdsBelow(mem, nextId)
  }

  lemma SpawnValid(mem: seq<Info>, nextId: nat, k: int)
    requires ValidTable(mem, nextId) && 0 <= k < |mem|
    ensures ValidTable(WithCount(mem, k, mem[k].promises + 1), nextId)
  {
    assert mem[k] in mem;
    CountEditKeeps(mem, k, mem[k].promises + 1);
    RowEditBelow(mem, k, mem[k].(promises := mem[k].promises + 1), nextId);
  }

  lemma IncrementedValid(mem: seq<Info>, nextId: nat, id: nat)
    requires ValidTable(mem, nextId)
    ensures ValidTable(Incremented(mem, id), nextId)
  {
    if id != 0 && IndexOf(mem, id).Some? {
      var k := IndexOf(mem, id).value;
      IncrementedAt(mem, id, k);
      SpawnValid(mem, nextId, k);
    } else {
      assert Incremented(mem, id) == mem;
    }
  }

  lemma ReleasedValid(mem: seq<Info>, nextId: nat, id: nat)
    requires ValidTable(mem, nextId) && CanRelease(mem, id)
    ensures ValidTable(Released(mem, id), nextId)
  {
    WithinBelow(Released(mem, id), mem, nextId);
  }

  lemma SweptValid(mem: seq<Info>, nextId: nat)
    requires ValidTable(mem, nextId)
    ensures ValidTable(Swept(mem), nextId)
  {
    SweptKeeps(mem);
  }

  lemma ExpiredValid(mem: seq<Info>, nextId: nat, k: int)
    requires ValidTable(mem, nextId) && 0 <= k < |mem|
    ensures ValidTable(mem[k := mem[k].(alive := false)], nextId)
  {
    ExpiredKeeps(mem, k);
    RowEditBelow(mem, k, mem[k].(alive := false), nextId);
  }

  lemma NewInfoValid(mem: seq<Info>, nextId: nat, parentId: nat, config: Configuration)
    requires ValidTable(mem, nextId)
    ensures |WithNewInfo(mem, nextId, parentId, config)| == |mem| + 1
    ensures ValidTable(WithNewInfo(mem, nextId, parentId, config), nextId + 1)
  {
    var linked := LinkedParent(mem, parentId);
    WithNewInfoKeeps(mem, nextId, parentId, config);
    IncrementedValid(mem, nextId, linked);
    AppendedBelow(Incremented(mem, linked), Info(nextId, linked, config, 0, true), nextId + 1);
    assert IdsBelow(Incremented(mem, linked), nextId + 1) by {
      forall x | x in Incremented(mem, linked) ensures x.id < nextId + 1 {}
    }
  }

  /** DecPromiseCount on the info at row `k` when it stays: the count drops by one. */
  lemma DecrementKept(mem: seq<Info>, nextId: nat, id: nat, k: int)
    requires ValidTable(mem, nextId) && CanRelease(mem, id) && id != 0 && IndexOf(mem, id) == Some(k)
    requires !(mem[k].promises - 1 == 0 && !mem[k].alive)
    ensures ValidTable(WithCount(mem, k, mem[k].promises - 1), nextId)
    ensures Released(mem, id) == WithCount(mem, k, mem[k].promises - 1)
  {
    assert mem[k] in mem;
    DecrementStep(mem, k);
    WithinBelow(WithCount(mem, k, mem[k].promises - 1), mem, nextId);
  }

  /**
   * DecPromiseCount on the info at row `k` when its last promise goes and its
   * host is gone: the row is erased and the link to the parent is released.
   */
  lemma EraseUnfold(mem: seq<Info>, nextId: nat, id: nat, k: int)
    requires ValidTable(mem, nextId) && CanRelease(mem, id) && id != 0 && IndexOf(mem, id) == Some(k)
    requires mem[k].promises - 1 == 0 && !mem[k].alive
    ensures mem[k].parentId < id
    ensures ValidTable(Removed(WithCount(mem, k, mem[k].promises - 1), k), nextId)
    ensures CanRelease(Removed(WithCount(mem, k, mem[k].promises - 1), k), mem[k].parentId)
    ensures mem[k].parentId == 0 ==> Released(mem, id) == Removed(WithCount(mem, k, mem[k].promises - 1), k)
    ensures mem[k].parentId > 0 ==>
              Released(mem, id) == Released(Removed(WithCount(mem, k, mem[k].promises - 1), k), mem[k].parentId)
  {
    assert mem[k] in mem;
    var dec := WithCount(mem, k, mem[k].promises - 1);
    DecrementStep(mem, k);
    WithinBelow(dec, mem, nextId);
    EraseStep(dec, k);
    WithinBelow(Removed(dec, k), dec, nextId);
  }

  /** The table right after the new info is appended, as TameNewVFS builds it. */
  lemma NewInfoBuilt(mem: seq<Info>, id: nat, parentId: nat, config: Configuration, mid: seq<Info>, linked: nat)
    requires linked == LinkedParent(mem, parentId) && mid == Incremented(mem, linked)
    ensures mid + [Info(id, linked, config, 0, true)] == WithNewInfo(mem, id, parentId, config)
  {
  }

  /**
   * The table of infos with the id counter. Ids start at 1, 0 standing for
   * "no instance" in promises and parent links.
   */
  class InstanceManager {
    var memory: seq<Info>
    var nextId: nat

    predicate Valid()
      reads this
    {
      ValidTable(memory, nextId)
    }

    constructor()
      ensures Valid() && memory == [] && nextId == 1
    {
      memory := [];
      nextId := 1;
    }

    /** InfoFromID_Unlocked: the position of the first info with `id`. */
    method InfoFromID(id: nat) returns (r: Option<nat>)
      ensures r == IndexOf(memory, id)
    {
      var i := 0;
      while i < |memory|
        invariant 0 <= i <= |memory|
        invariant forall j :: 0 <= j < i ==> memory[j].id != id
      {
        if memory[i].id == id {
          return Some(i);
        }
        i := i + 1;
      }
      return None;
    }

    method IncPromiseCount(id: nat)
      requires Valid()
      modifies this
      ensures Valid() && nextId == old(nextId)
      ensures memory == Incremented(old(memory), id)
    {
      if id == 0 {
        return;
      }
      var k := InfoFromID(id);
      IncrementedValid(memory, nextId, id);
      if k.Some? {
        IncrementedAt(memory, id, k.value);
        memory := WithCount(memory, k.value, memory[k.value].promises + 1);
      }
    }

    /**
     * Drops one promise; an info left without promises whose host is gone is
     * erased and the promise it held on its parent is released in turn.
     */
    method DecPromiseCount(id: nat)
      requires Valid() && CanRelease(memory, id)
      modifies this
      ensures Valid() && nextId == old(nextId)
      ensures memory == Released(old(memory), id)
      decreases id, 2
    {
      if id == 0 {
        return;
      }
      var k := InfoFromID(id);
      if k.Some? {
        ReleaseRow(id, k.value);
      }
    }

    /** DecPromiseCount once the info of `id` is found at row `i`. */
    method ReleaseRow(id: nat, i: nat)
      requires Valid() && id != 0 && CanRelease(memory, id) && IndexOf(memory, id) == Some(i)
      modifies this
      ensures Valid() && nextId == old(nextId)
      ensures memory == Released(old(memory), id)
      decreases id, 1
    {
      if memory[i].promises - 1 == 0 && !memory[i].alive {
        EraseRow(id, i);
      } else {
        DecrementRow(id, i);
      }
    }

    /** The branch of DecPromiseCount where the info stays: its count drops by one. */
    method DecrementRow(id: nat, i: nat)
      requires Valid() && id != 0 && CanRelease(memory, id) && IndexOf(memory, id) == Some(i)
      requires !(memory[i].promises - 1 == 0 && !memory[i].alive)
      modifies this
      ensures Valid() && nextId == old(nextId)
      ensures memory == Released(old(memory), id)
    {
      DecrementKept(memory, nextId, id, i);
      memory := WithCount(memory, i, memory[i].promises - 1);
    }

    /**
     * The erasing branch of DecPromiseCount: the last promise of the info at
     * row `i` goes and its host is gone, so the row is erased and the link it
     * held on its parent is released in turn.
     */
    method EraseRow(id: nat, i: nat)
      requires Valid() && id != 0 && CanRelease(memory, id) && IndexOf(memory, id) == Some(i)
      requires memory[i].promises - 1 == 0 && !memory[i].alive
      modifies this
      ensures Valid() && nextId == old(nextId)
      ensures memory == Released(old(memory), id)
      decreases id, 0
    {
      var parentId := memory[i].parentId;
      EraseUnfold(memory, nextId, id, i);
      memory := Removed(WithCount(memory, i, memory[i].promises - 1), i);
      if parentId > 0 {
        DecPromiseCount(parentId);
      }
    }

    /** Erases the infos whose host is gone and which no promise names, keeping the order. */
    method SweepDeadMemory()
      requires Valid()
      modifies this
      ensures Valid() && nextId == old(nextId)
      ensures memory == Swept(old(memory))
    {
      var mem := memory;
      SweptValid(mem, nextId);
      var kept: seq<Info> := [];
      var i := 0;
      while i < |mem|
        invariant 0 <= i <= |mem|
        invariant kept == Swept(mem[..i])
        invariant memory == mem && nextId == old(nextId)
      {
        SweptAppend(mem[..i], mem[i]);
        assert mem[..i + 1] == mem[..i] + [mem[i]];
        if !Dead(mem[i]) {
          kept := kept + [mem[i]];
        }
        i := i + 1;
      }
      assert mem[..i] == mem;
      memory := kept;
    }

    /** The destruct callback of the host behind info `id`: it expires, then dead memory is swept. */
    method HostDestroyed(id: nat)
      requires Valid()
      modifies this
      ensures Valid() && nextId == old(nextId)
      ensures IndexOf(old(memory), id).None? ==> memory == Swept(old(memory))
      ensures IndexOf(old(memory), id).Some? ==>
                var k := IndexOf(old(memory), id).value;
                memory == Swept(old(memory)[k := old(memory)[k].(alive := false)])
    {
      var k := InfoFromID(id);
      if k.Some? {
        var i := k.value;
        ExpiredValid(memory, nextId, i);
        memory := memory[i := memory[i].(alive := false)];
      }
      SweepDeadMemory();
    }

    /** SpawnPromiseFromInfo_Unlocked: one more promise on row `k`. */
    method SpawnPromiseFromInfo(k: nat) returns (p: Promise)
      requires Valid() && k < |memory|
      modifies this
      ensures Valid() && nextId == old(nextId)
      ensures memory == WithCount(old(memory), k, old(memory)[k].promises + 1)
      ensures fresh(p) && p.manager == this && p.instId == memory[k].id && p.IsSet()
    {
      SpawnValid(memory, nextId, k);
      memory := WithCount(memory, k, memory[k].promises + 1);
      p := new Promise.Make(memory[k].id, this);
    }

    method GetVFSPromiseByPosition(at: nat) returns (p: Promise)
      requires Valid()
      modifies this
      ensures Valid() && nextId == old(nextId) && fresh(p)
      ensures at < |old(memory)| ==>
                p.manager == this && p.instId == old(memory)[at].id &&
                memory == WithCount(old(memory), at, old(memory)[at].promises + 1)
      ensures at >= |old(memory)| ==> !p.IsSet() && memory == old(memory)
    {
      if at < |memory| {
        p := SpawnPromiseFromInfo(at);
      } else {
        p := new Promise.Empty();
      }
    }

    /** A promise on the parent of the promise's info; empty for a root or an unset promise. */
    method GetParentPromise(promise: Promise) returns (p: Promise)
      requires Valid() && (promise.IsSet() ==> promise.manager == this)
      modifies this
      ensures Valid() && nextId == old(nextId) && fresh(p)
      ensures var parent := if promise.IsSet() then ParentIdOf(old(memory), promise.instId) else 0;
              if parent != 0 && HasId(old(memory), parent)
              then p.manager == this && p.instId == parent && memory == Incremented(old(memory), parent)
              else !p.IsSet() && memory == old(memory)
    {
      if !promise.IsSet() {
        p := new Promise.Empty();
        return;
      }
      var k := InfoFromID(promise.instId);
      if k.None? || memory[k.value].parentId == 0 {
        p := new Promise.Empty();
        return;
      }
      var parent := memory[k.value].parentId;
      var q := InfoFromID(parent);
      IndexOfFinds(memory, parent);
      if q.Some? {
        IncrementedAt(memory, parent, q.value);
        p := SpawnPromiseFromInfo(q.value);
      } else {
        p := new Promise.Empty();
      }
    }

    /** The tag of the promise's info; None where the source returns a null pointer. */
    method GetTag(promise: Promise) returns (t: Option<string>)
      requires promise.IsSet() ==> promise.manager == this
      ensures t.None? <==> !promise.IsSet() || !HasId(memory, promise.instId)
      ensures t.Some? ==> exists x :: x in memory && x.id == promise.instId && t.value == x.config.tag
    {
      IndexOfFinds(memory, promise.instId);
      if !promise.IsSet() {
        return None;
      }
      var k := InfoFromID(promise.instId);
      if k.None? {
        return None;
      }
      assert memory[k.value] in memory;
      return Some(memory[k.value].config.tag);
    }

    /** The junctions from the root down to the promise's info, joined; "" for an unset promise. */
    method GetVerboseVFSTitle(promise: Promise) returns (title: string)
      requires Valid() && (promise.IsSet() ==> promise.manager == this)
      ensures title == if promise.IsSet() then TitleOrEmpty(memory, promise.instId) else ""
    {
      if !promise.IsSet() {
        return "";
      }
      title := "";
      var next := promise.instId;
      if Title(memory, next).Some? {
        assert Title(memory, next).value + "" == Title(memory, next).value;
      }
      while next > 0
        invariant Title(memory, promise.instId) == Suffixed(Title(memory, next), title)
        decreases next
      {
        var k := InfoFromID(next);
        if k.None? {
          return "";
        }
        var info := memory[k.value];
        assert info in memory;
        if Title(memory, info.parentId).Some? {
          ConcatAssoc(Title(memory, info.parentId).value, info.config.verboseJunction, title);
        }
        title := info.config.verboseJunction + title;
        next := info.parentId;
      }
      assert "" + title == title;
    }

    /**
     * The new-info branch of TameVFS: the parent's info, if found, gets one
     * more promise for the link; the new info takes the next id and the
     * caller's promise.
     */
    method TameNewVFS(parentId: nat, config: Configuration) returns (p: Promise)
      requires Valid()
      modifies this
      ensures Valid() && nextId == old(nextId) + 1
      ensures memory == WithCount(WithNewInfo(old(memory), old(nextId), parentId, config), |old(memory)|, 1)
      ensures fresh(p) && p.manager == this && p.instId == old(nextId) && p.IsSet()
      ensures IdsBelow(old(memory), p.instId)
    {
      ghost var before := memory;
      var row := |memory|;
      NewInfoValid(before, nextId, parentId, config);
      var linked := 0;
      if parentId != 0 {
        var k := InfoFromID(parentId);
        IndexOfFinds(memory, parentId);
        if k.Some? {
          linked := parentId;
          IncrementedAt(memory, parentId, k.value);
          memory := WithCount(memory, k.value, memory[k.value].promises + 1);
        }
      }
      NewInfoBuilt(before, nextId, parentId, config, memory, linked);
      memory := memory + [Info(nextId, linked, config, 0, true)];
      assert memory == WithNewInfo(before, nextId, parentId, config);
      nextId := nextId + 1;
      p := SpawnPromiseFromInfo(row);
    }
  }

  // ---------------------------------------------------------------------------
  // Promises
  // ---------------------------------------------------------------------------

  /** A handle naming an info of a manager; a set promise holds one count on it. */
  class Promise {
    var instId: nat
    var manager: InstanceManager?

    /** operator bool */
    predicate IsSet()
      reads this
    {
      manager != null && instId != 0
    }

    /** operator== */
    predicate Equals(other: Promise)
      reads this, other
    {
      manager == other.manager && instId == other.instId
    }

    /** operator!= */
    predicate NotEquals(other: Promise)
      reads this, other
    {
      !Equals(other)
    }

    constructor Empty()
      ensures instId == 0 && manager == null && !IsSet()
    {
      instId := 0;
      manager := null;
    }

    /** Made by a manager, which has already counted it. */
    constructor Make(id: nat, m: InstanceManager)
      ensures instId == id && manager == m
    {
      instId := id;
      manager := m;
    }

    constructor Copy(rhs: Promise)
      requires rhs.manager != null ==> rhs.manager.Valid()
      modifies rhs.manager
      ensures Equals(rhs) && rhs.instId == old(rhs.instId) && rhs.manager == old(rhs.manager)
      ensures manager != null ==>
                manager.Valid() && manager.nextId == old(rhs.manager.nextId) &&
                manager.memory == Incremented(old(rhs.manager.memory), instId)
    {
      instId := rhs.instId;
      manager := rhs.manager;
      new;
      if manager != null {
        manager.IncPromiseCount(instId);
      }
    }

    constructor Move(rhs: Promise)
      modifies rhs
      ensures instId == old(rhs.instId) && manager == old(rhs.manager)
      ensures rhs.instId == 0 && rhs.manager == null && !rhs.IsSet()
    {
      instId := rhs.instId;
      manager := rhs.manager;
      new;
      rhs.instId := 0;
      rhs.manager := null;
    }

    /** The destructor: gives the count back. */
    method Destroy()
      requires manager != null ==> manager.Valid() && CanRelease(manager.memory, instId)
      modifies manager
      ensures manager != null ==>
                manager.Valid() && manager.nextId == old(manager.nextId) &&
                manager.memory == Released(old(manager.memory), instId)
    {
      if manager != null {
        manager.DecPromiseCount(instId);
      }
    }

    /** Copy assignment, taking the new count before giving the old one back. */
    method CopyAssign(rhs: Promise)
      requires manager != null ==> manager.Valid() && CanRelease(manager.memory, instId)
      requires rhs.manager != null ==> rhs.manager.Valid()
      modifies this, manager, rhs.manager
      ensures instId == old(rhs.instId) && manager == old(rhs.manager)
      ensures old(manager) != null && old(manager) == old(rhs.manager) ==>
                manager.Valid() && manager.memory == CopyAssigned(old(manager.memory), old(instId), old(rhs.instId))
      ensures old(manager) != null && old(manager) != old(rhs.manager) ==>
                old(manager).Valid() && old(manager).memory == Released(old(manager.memory), old(instId))
      ensures old(rhs.manager) != null && old(manager) != old(rhs.manager) ==>
                manager.Valid() && manager.memory == Incremented(old(rhs.manager.memory), old(rhs.instId))
    {
      var newId := rhs.instId;
      var newManager := rhs.manager;
      if newManager != null {
        if manager == newManager {
          IncrementedCanRelease(manager.memory, newId, instId);
        }
        newManager.IncPromiseCount(newId);
      }
      if manager != null {
        manager.DecPromiseCount(instId);
      }
      instId := newId;
      manager := newManager;
    }

    /** Move assignment: gives the old count back and takes over the other handle. */
    method MoveAssign(rhs: Promise)
      requires manager != null ==> manager.Valid() && CanRelease(manager.memory, instId)
      modifies this, rhs, manager
      ensures rhs != this ==> instId == old(rhs.instId) && manager == old(rhs.manager)
      ensures rhs.instId == 0 && rhs.manager == null
      ensures old(manager) != null ==>
                old(manager).Valid() && old(manager).memory == Released(old(manager.memory), old(instId))
    {
      if manager != null {
        manager.DecPromiseCount(instId);
      }
      instId := rhs.instId;
      manager := rhs.manager;
      rhs.instId := 0;
      rhs.manager := null;
    }

    method Tag() returns (t: Option<string>)
      ensures manager == null ==> t == Some("")
      ensures manager != null ==> (t.None? <==> !IsSet() || !HasId(manager.memory, instId))
      ensures manager != null && t.Some? ==>
                exists x :: x in manager.memory && x.id == instId && t.value == x.config.tag
    {
      if manager == null {
        return Some("");
      }
      t := manager.GetTag(this);
    }

    method VerboseTitle() returns (s: string)
      requires manager != null ==> manager.Valid()
      ensures s == if IsSet() then TitleOrEmpty(manager.memory, instId) else ""
    {
      if manager == null {
        return "";
      }
      s := manager.GetVerboseVFSTitle(this);
    }
  }
}
